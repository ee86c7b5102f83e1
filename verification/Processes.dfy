/** pcb_init of src/scheduling/pcb.c: a new process, with its first two pages loaded while
    there are free frames. */
module Processes {
  import opened Recency
  import opened Jobs
  import opened Pcbs
  import opened Memories

  /** The store as a value. */
  ghost function Store(mem: Memory, faults: nat): Paging
    requires mem.Valid()
    reads mem, mem.fstore.memory, mem.fstore.frameTable, mem.lru, mem.lru.repr, mem.procs`pageTable
  {
    Paging(mem.fstore.numFrames, mem.Pages(), faults)
  }

  /** The pages that code loading asks for: the first two, as far as the file has them. */
  function PreloadOps(pid: nat, length: nat, size: nat): seq<Op> {
    (if 0 < length then [Pre(PageId(pid, 0))] else []) + (if size < length then [Pre(PageId(pid, 1))] else [])
  }

  /** One round of the code loading loop. */
  function PagePreload(m: Paging, pid: nat, page: nat, length: nat, size: nat): Paging
    requires 1 <= m.cap
  {
    if page * size < length then Preload(m, PageId(pid, page)) else m
  }

  lemma PreloadsTwoPages(m: Paging, pid: nat, length: nat, size: nat)
    requires 1 <= m.cap && 1 <= size
    ensures Run(m, PreloadOps(pid, length, size))
         == PagePreload(PagePreload(m, pid, 0, length, size), pid, 1, length, size)
  {
    var ops := PreloadOps(pid, length, size);
    assert 0 * size == 0 && 1 * size == size;
    if 0 < length {
      var m1 := Preload(m, PageId(pid, 0));
      assert ops[0] == Pre(PageId(pid, 0));
      assert ops[1..] == if size < length then [Pre(PageId(pid, 1))] else [];
      assert Run(m, ops) == Run(m1, ops[1..]);
      assert Run(m1, [Pre(PageId(pid, 1))]) == Run(Preload(m1, PageId(pid, 1)), []);
    }
  }

  /** How many pages of a new process code loading brings in: two, or as many as the file has,
      or as many as there are free frames. */
  function Loaded(m: Paging, length: nat, size: nat): (n: nat)
    requires 1 <= size && |m.order| <= m.cap
  {
    var pages, free := (length + size - 1) / size, m.cap - |m.order|;
    if free < 2 && free < pages then free else if pages < 2 then pages else 2
  }

  /** Code loading puts these pages in front, the last one first, evicts nothing and counts no
      fault. */
  lemma CodeLoading(m: Paging, pid: nat, length: nat, size: nat)
    requires Ok(m) && 1 <= size && forall p :: p in m.order ==> p.pid != pid
    ensures var n := Loaded(m, length, size);
      Run(m, PreloadOps(pid, length, size))
        == m.(order := (if n == 0 then [] else if n == 1 then [PageId(pid, 0)] else [PageId(pid, 1), PageId(pid, 0)])
                       + m.order)
  {
    hide Run, PreloadOps, PagePreload, NoDup, Loaded;
    PreloadsTwoPages(m, pid, length, size);
    LoadedIs(m, length, size);
    PageLoaded(m, pid, 0, length, size);
    PageLoaded(PagePreload(m, pid, 0, length, size), pid, 1, length, size);
    assert [PageId(pid, 1)] + ([PageId(pid, 0)] + m.order) == [PageId(pid, 1), PageId(pid, 0)] + m.order;
    assert [] + m.order == m.order;
  }

  lemma PageLoaded(m: Paging, pid: nat, page: nat, length: nat, size: nat)
    requires 1 <= m.cap && 1 <= size && page < 2 && PageId(pid, page) !in m.order
    ensures PagePreload(m, pid, page, length, size)
         == if (if page == 0 then 0 < length else size < length) && |m.order| < m.cap
            then m.(order := [PageId(pid, page)] + m.order) else m
  {
    assert 0 * size == 0 && 1 * size == size;
  }

  lemma LoadedIs(m: Paging, length: nat, size: nat)
    requires 1 <= size && |m.order| <= m.cap
    ensures var n := Loaded(m, length, size);
      && n <= 2 && (n >= 1 <==> 0 < length && |m.order| < m.cap)
      && (n == 2 <==> size < length && |m.order| + 1 < m.cap)
  {
    PagesLoaded(length, size);
  }

  lemma PagesLoaded(length: nat, size: nat)
    requires 1 <= size
    ensures var pages := (length + size - 1) / size; (pages >= 1 <==> 0 < length) && (pages >= 2 <==> size < length)
  {
    var pages := (length + size - 1) / size;
    assert pages * size <= length + size - 1 < pages * size + size;
    assert pages >= 2 ==> pages * size >= 2 * size;
    assert pages <= 1 ==> pages * size <= size;
  }

  /** Loads one page of a new process, unless every frame is taken. */
  method PreloadPage(mem: Memory, pcb: PCB, page: nat, ghost faults: nat) returns (loaded: bool)
    requires mem.Valid() && pcb in mem.procs && page < |pcb.pageTable| && pcb.pageTable[page] == -1
    requires page * mem.fstore.frameSize < |pcb.fileContents| && 1 <= mem.fstore.numFrames
    modifies mem`used, mem.fstore.memory, mem.fstore.frameTable, mem.lru`nodes, mem.lru.repr, pcb`pageTable
    ensures mem.Valid()
    ensures Store(mem, faults) == Preload(old(Store(mem, faults)), PageId(pcb.pid, page))
    ensures loaded <==> |old(mem.Pages())| < mem.fstore.numFrames
    ensures |pcb.pageTable| == |old(pcb.pageTable)|
    ensures forall g :: 0 <= g < |pcb.pageTable| && g != page ==> pcb.pageTable[g] == old(pcb.pageTable[g])
  {
    mem.NotResident(pcb, page);
    var frame := mem.FindAvailableFrame();
    if frame == -1 {
      return false;
    }
    mem.LoadPageIntoFrame(pcb, page, frame);
    // pcb_init stores the frame number in the page table once more
    assert pcb.pageTable == pcb.pageTable[page := frame];
    return true;
  }

  method PcbInit(mem: Memory, pid: nat, contents: seq<Line>, ghost faults: nat) returns (pcb: PCB)
    requires mem.Valid() && 1 <= mem.fstore.numFrames && |contents| <= MAX_FILE_SIZE
    requires forall p :: p in mem.procs ==> p.pid != pid
    modifies mem, mem.fstore.memory, mem.fstore.frameTable, mem.lru`nodes, mem.lru.repr
    ensures mem.Valid() && mem.procs == old(mem.procs) + {pcb} && fresh(pcb)
    ensures pcb.View() == Job(pid, contents, 0, |contents|) && pcb.next == null
    ensures Store(mem, faults) == Run(old(Store(mem, faults)), PreloadOps(pid, |contents|, mem.fstore.frameSize))
  {
    pcb := new PCB(pid, contents, TableSize(mem.fstore.frameSize));
    mem.Adopt(pcb);
    assert Store(mem, faults) == old(Store(mem, faults));
    LoadFirstPages(mem, pcb, faults);
  }

  /** The code loading loop of pcb_init. */
  method LoadFirstPages(mem: Memory, pcb: PCB, ghost faults: nat)
    requires mem.Valid() && 1 <= mem.fstore.numFrames && pcb in mem.procs
    requires pcb.pageTable == seq(TableSize(mem.fstore.frameSize), i => -1)
    modifies mem`used, mem.fstore.memory, mem.fstore.frameTable, mem.lru`nodes, mem.lru.repr, pcb`pageTable
    ensures mem.Valid()
    ensures Store(mem, faults) == Run(old(Store(mem, faults)), PreloadOps(pcb.pid, |pcb.fileContents|, mem.fstore.frameSize))
  {
    var size := mem.fstore.frameSize;
    var length := |pcb.fileContents|;
    ghost var start := Store(mem, faults);
    ghost var first := PagePreload(start, pcb.pid, 0, length, size);
    ghost var both := PagePreload(first, pcb.pid, 1, length, size);
    PreloadsTwoPages(start, pcb.pid, length, size);
    var page := 0;
    while page < 2 && page * size < length
      invariant 0 <= page <= 2 && mem.Valid() && |pcb.pageTable| == TableSize(size)
      invariant Store(mem, faults) == if page == 0 then start else if page == 1 then first else both
      invariant forall g :: page <= g < |pcb.pageTable| ==> pcb.pageTable[g] == -1
    {
      mem.PageFits(pcb, page);
      var loaded := PreloadPage(mem, pcb, page, faults);
      if !loaded {
        assert Store(mem, faults) == both;
        break;
      }
      page := page + 1;
    }
  }
}
