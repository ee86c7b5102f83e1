/** src/memory/memory.c: the manager that keeps frames, frame table, page tables and the
    order of use in step. */
module Memories {
  import Division
  import opened Recency
  import opened Jobs
  import opened Pcbs
  import opened FrameStores
  import opened LruLists
  import opened Residency

  class Memory {
    const fstore: FrameStore
    const lru: LruList
    ghost var procs: set<PCB>
    ghost var used: nat

    ghost function Frames(): (r: seq<seq<Slot>>)
      requires fstore.Shaped()
      reads fstore.memory
    {
      seq(fstore.numFrames, f requires 0 <= f < fstore.numFrames reads fstore.memory => fstore.Frame(f))
    }

    ghost function PageTables(): map<PCB, seq<int>>
      reads this`procs, procs`pageTable
    {
      map p | p in procs :: p.pageTable
    }

    /** The state of this moment as a value. */
    ghost function Now(): Snapshot
      requires fstore.Shaped() && |lru.nodes| >= 2
      reads this, fstore.memory, fstore.frameTable, lru, procs`pageTable
    {
      Snapshot(lru.Order(), fstore.frameTable[..], Frames(), PageTables(), used)
    }

    ghost predicate Valid()
      reads this, fstore.memory, fstore.frameTable, lru, lru.repr, procs`pageTable
    {
      && fstore.Shaped() && lru.Valid() && lru.size == fstore.numFrames
      && Consistent(Now(), fstore.frameSize)
    }

    /** The pages in the store, most recently used first. */
    ghost function Pages(): seq<PageId>
      requires Valid()
      reads this, fstore.memory, fstore.frameTable, lru, lru.repr, procs`pageTable
    {
      Resident(Now())
    }

    /** mem_init */
    constructor (storeSize: nat, frameSize: nat)
      requires 1 <= frameSize
      ensures Valid() && procs == {} && Pages() == []
      ensures fstore.frameSize == frameSize && fstore.numFrames == storeSize / frameSize
      ensures fresh(fstore) && fresh(fstore.memory) && fresh(fstore.frameTable)
      ensures fresh(lru) && fresh(lru.repr)
    {
      var l := new LruList(storeSize / frameSize);
      var s := new FrameStore(storeSize, frameSize);
      fstore, lru := s, l;
      procs, used := {}, 0;
      new;
      assert forall f :: 0 <= f < fstore.numFrames ==> EntryOk(Now(), f, frameSize);
      assert OrderOk(Now());
    }

    /** A new process becomes known, with nothing in the store. */
    ghost method Adopt(pcb: PCB)
      requires Valid() && pcb !in procs && |pcb.fileContents| <= MAX_FILE_SIZE
      requires pcb.pageTable == seq(TableSize(fstore.frameSize), i => -1)
      requires forall p :: p in procs ==> p.pid != pcb.pid
      modifies this`procs
      ensures Valid() && procs == old(procs) + {pcb} && Pages() == old(Pages())
    {
      AdoptOk(Now(), pcb, fstore.frameSize);
      procs := procs + {pcb};
      assert Now() == Residency.Adopt(old(Now()), pcb, fstore.frameSize);
    }

    /** mem_find_available_frame: the least free frame while there is one, otherwise -1. */
    method FindAvailableFrame() returns (frame: int)
      requires Valid()
      ensures frame == -1 <==> used == fstore.numFrames
      ensures frame != -1 ==> 0 <= frame < fstore.numFrames && fstore.frameTable[frame].pcb == null
      ensures frame != -1 ==> forall f :: 0 <= f < frame ==> fstore.frameTable[f].pcb != null
    {
      frame := fstore.FindAvailableFrame();
      forall f | 0 <= f < frame ensures fstore.frameTable[f].pcb != null {
        UnusedIsFree(f);
      }
      if frame == -1 {
        if used < fstore.numFrames { UnusedIsFree(lru.Order()[used]); }
      } else {
        UnusedIsFree(frame);
        assert frame in Now().order;
      }
    }

    lemma UnusedIsFree(f: nat)
      requires Valid() && f < fstore.numFrames
      ensures fstore.Unused(f) <==> fstore.frameTable[f].pcb == null
    {
      UnusedIffFree(Now(), fstore.frameSize, f);
      assert Now().frames[f] == fstore.Frame(f);
    }

    /** get_lru_frame of src/memory/lru.c. */
    method GetLruFrame() returns (frame: int)
      requires Valid() && 0 < fstore.numFrames
      ensures 0 <= frame < fstore.numFrames && frame == lru.Order()[fstore.numFrames - 1]
    {
      frame := lru.GetLruFrame();
      assert frame in lru.Order();
    }

    /** access_frame of src/memory/lru.c, on the frame that holds page `page` of `pcb`. */
    method AccessFrame(frame: nat, ghost pcb: PCB, ghost page: nat)
      requires Valid() && frame < fstore.numFrames && fstore.frameTable[frame] == FrameTableEntry(page, pcb)
      modifies lru`nodes, lru.repr
      ensures Valid() && PageId(pcb.pid, page) in old(Pages())
      ensures Pages() == MoveToFront(old(Pages()), PageId(pcb.pid, page))
    {
      hide Resident, Consistent, MoveToFront;
      ghost var s := Now();
      AccessOk(s, fstore.frameSize, frame);
      assert PageIn(s, frame) == PageId(pcb.pid, page);
      lru.AccessFrame(frame);
      assert Frames() == s.frames && PageTables() == s.tables && fstore.frameTable[..] == s.table;
      assert Now() == Access(s, frame);
    }

    /** mem_free_memory_frame on the least recently used frame. */
    method FreeMemoryFrame(frame: nat)
      requires Valid() && 0 < used && frame == lru.Order()[used - 1]
      modifies this`used, fstore.memory, fstore.frameTable, procs`pageTable
      ensures Valid() && used == old(used) - 1
      ensures Pages() == old(Pages())[..old(used) - 1]
      ensures fstore.frameTable[frame].pcb == null && frame < fstore.numFrames
    {
      hide Resident, PageSlots;
      ghost var s := Now();
      VictimIsReal(s, fstore.frameSize);
      EvictOk(s, fstore.frameSize, frame);
      fstore.EvictFrame(frame);
      var pcb := fstore.frameTable[frame].pcb;
      var page := fstore.frameTable[frame].page;
      pcb.pageTable := pcb.pageTable[page := -1];
      fstore.frameTable[frame] := FREE_ENTRY;
      used := used - 1;
      assert Now() == Evict(s, fstore.frameSize, frame);
    }

    /** The slots of a page up to `offset`, blank from there on. */
    function Partly(slots: seq<Slot>, offset: nat): seq<Slot>
      requires offset <= |slots|
    {
      slots[..offset] + Blank(|slots| - offset)
    }

    lemma PartlyStep(pcb: PCB, page: nat, offset: nat)
      requires offset < fstore.frameSize
      ensures var slots := PageSlots(pcb.fileContents, page, fstore.frameSize);
        Partly(slots, offset + 1) ==
          if page * fstore.frameSize + offset < |pcb.fileContents|
          then Partly(slots, offset)[offset := slots[offset]] else Partly(slots, offset)
    {
    }

    /** Copies the lines of a page into a blank frame. */
    method CopyPage(pcb: PCB, page: nat, frame: nat)
      requires fstore.Shaped() && frame < fstore.numFrames
      requires fstore.Frame(frame) == Blank(fstore.frameSize)
      modifies fstore.memory
      ensures forall f :: 0 <= f < fstore.numFrames ==>
                fstore.Frame(f) == if f == frame then PageSlots(pcb.fileContents, page, fstore.frameSize)
                                   else old(fstore.Frame(f))
    {
      var size := fstore.frameSize;
      ghost var slots := PageSlots(pcb.fileContents, page, size);
      var offset := 0;
      assert Partly(slots, 0) == Blank(size);
      while offset < size
        invariant 0 <= offset <= size
        invariant forall f :: 0 <= f < fstore.numFrames ==>
                    fstore.Frame(f) == if f == frame then Partly(slots, offset) else old(fstore.Frame(f))
      {
        var line := page * size + offset;
        PartlyStep(pcb, page, offset);
        if line < |pcb.fileContents| {
          CopyLine(pcb.fileContents[line], frame, offset);
        }
        offset := offset + 1;
      }
      assert Partly(slots, size) == slots;
    }

    /** mem_set_fstore_value at one place of a frame. */
    method CopyLine(text: Line, frame: nat, offset: nat)
      requires fstore.Shaped() && frame < fstore.numFrames && offset < fstore.frameSize
      modifies fstore.memory
      ensures forall f :: 0 <= f < fstore.numFrames ==>
                fstore.Frame(f) == if f == frame then old(fstore.Frame(f))[offset := Stored(text)]
                                   else old(fstore.Frame(f))
    {
      var address := frame * fstore.frameSize + offset;
      fstore.InBounds(frame);
      ghost var before := fstore.memory[..];
      fstore.Set(text, address);
      forall f | 0 <= f < fstore.numFrames
        ensures fstore.Frame(f) == if f == frame then old(fstore.Frame(f))[offset := Stored(text)]
                                   else old(fstore.Frame(f))
      {
        fstore.InBounds(f);
        SetInFrame(before, fstore.frameSize, frame, offset, Stored(text), f);
      }
    }

    /** mem_load_page_into_frame: brings a page into a free frame and makes it the most
        recently used; a page outside the file is refused. */
    method LoadPageIntoFrame(pcb: PCB, page: int, frame: nat)
      requires Valid() && pcb in procs && frame < fstore.numFrames && fstore.frameTable[frame].pcb == null
      requires 0 <= page < |pcb.pageTable| ==> pcb.pageTable[page] == -1
      modifies this`used, fstore.memory, fstore.frameTable, lru`nodes, lru.repr, pcb`pageTable
      ensures Valid()
      ensures var inFile := 0 <= page && page * fstore.frameSize < |pcb.fileContents|;
        if inFile then
          && Pages() == [PageId(pcb.pid, page)] + old(Pages()) && used == old(used) + 1
          && page < |old(pcb.pageTable)| && pcb.pageTable == old(pcb.pageTable)[page := frame]
          && fstore.frameTable[frame] == FrameTableEntry(page, pcb)
        else Pages() == old(Pages()) && used == old(used) && pcb.pageTable == old(pcb.pageTable)
    {
      if page < 0 || page * fstore.frameSize >= |pcb.fileContents| {
        return;
      }
      ghost var s := Now();
      PageFits(pcb, page);
      UnusedIffFree(s, fstore.frameSize, frame);
      assert s.frames[frame] == fstore.Frame(frame);
      CopyPage(pcb, page, frame);
      assert Frames() == s.frames[frame := PageSlots(pcb.fileContents, page, fstore.frameSize)];
      Record(pcb, page, frame, s);
      FillOk(s, fstore.frameSize, pcb, page, frame);
    }

    /** The metadata half of mem_load_page_into_frame: frame table, page table, order of use. */
    method Record(pcb: PCB, page: nat, frame: nat, ghost s: Snapshot)
      requires fstore.Shaped() && lru.Valid() && lru.size == fstore.numFrames == |s.table|
      requires pcb in procs && frame < fstore.numFrames && page < |pcb.pageTable| && frame in s.order
      requires |s.frames| == |s.table|
      requires Now() == s.(frames := s.frames[frame := PageSlots(pcb.fileContents, page, fstore.frameSize)])
      modifies this`used, fstore.frameTable, lru`nodes, lru.repr, pcb`pageTable
      ensures lru.Valid() && Now() == Fill(s, fstore.frameSize, pcb, page, frame)
      ensures pcb.pageTable == old(pcb.pageTable)[page := frame]
      ensures fstore.frameTable[frame] == FrameTableEntry(page, pcb)
    {
      hide PageSlots, LruList.Valid;
      fstore.frameTable[frame] := FrameTableEntry(page, pcb);
      pcb.pageTable := pcb.pageTable[page := frame];
      used := used + 1;
      assert PageTables() == s.tables[pcb := s.tables[pcb][page := frame]];
      lru.AccessFrame(frame);
      assert Frames() == old(Frames());
      assert PageTables() == s.tables[pcb := s.tables[pcb][page := frame]];
    }

    lemma PageCount()
      requires Valid()
      ensures |Pages()| == used <= fstore.numFrames == |lru.Order()|
    {
    }

    lemma NotResident(pcb: PCB, page: nat)
      requires Valid() && pcb in procs && page < |pcb.pageTable|
      ensures pcb.pageTable[page] == -1 <==> PageId(pcb.pid, page) !in Pages()
      ensures |Pages()| == used <= fstore.numFrames
    {
      Residency.ResidentIff(Now(), fstore.frameSize, pcb, page);
    }

    lemma PageFits(pcb: PCB, page: nat)
      requires Valid() && pcb in procs && page * fstore.frameSize < |pcb.fileContents|
      ensures page < |pcb.pageTable|
    {
      var size := fstore.frameSize;
      assert PageTableOk(Now(), pcb, size);
      PageInTable(page * size, size);
      Division.Unique(page * size, size, page);
    }
  }
}
