/** src/memory/frame_store.c: the lines of memory, cut into frames, and the frame table. */
module FrameStores {
  import opened Jobs
  import opened Pcbs

  /** One line of memory; NULL in the source when nothing is stored there. */
  datatype Slot = Null | Stored(text: Line)

  datatype FrameTableEntry = FrameTableEntry(page: int, pcb: PCB?)

  const FREE_ENTRY := FrameTableEntry(-1, null)

  /** Frame `f` of a memory with `size` lines to a frame. */
  function FrameOf(memory: seq<Slot>, size: nat, f: nat): seq<Slot>
    requires f * size + size <= |memory|
  {
    memory[f * size..f * size + size]
  }

  function Blank(size: nat): seq<Slot> {
    seq(size, i => Null)
  }

  /** All of frame `f` lies below the frames after it. */
  lemma FramesApart(size: nat, f: nat, g: nat)
    requires f < g
    ensures f * size + size <= g * size
  {
    assert (g - f - 1) * size >= 0;
    assert (g - f - 1) * size == g * size - f * size - size;
  }

  lemma SetInFrame(memory: seq<Slot>, size: nat, f: nat, offset: nat, value: Slot, g: nat)
    requires f * size + size <= |memory| && g * size + size <= |memory| && offset < size
    ensures FrameOf(memory[f * size + offset := value], size, g)
         == if g == f then FrameOf(memory, size, f)[offset := value] else FrameOf(memory, size, g)
  {
    if f < g { FramesApart(size, f, g); }
    if g < f { FramesApart(size, g, f); }
  }

  class FrameStore {
    const frameSize: nat
    const numFrames: nat
    const memory: array<Slot>
    const frameTable: array<FrameTableEntry>

    /** The store is a whole number of frames; lines beyond the last are never used. */
    ghost predicate Shaped() {
      && 1 <= frameSize
      && numFrames == memory.Length / frameSize
      && frameTable.Length == numFrames
    }

    lemma InBounds(f: nat)
      requires Shaped() && f < numFrames
      ensures f * frameSize + frameSize <= memory.Length
    {
      FramesApart(frameSize, f, numFrames);
      assert numFrames * frameSize <= memory.Length;
    }

    ghost function Frame(f: nat): (r: seq<Slot>)
      requires Shaped() && f < numFrames
      reads memory
      ensures |r| == frameSize
    {
      InBounds(f);
      FrameOf(memory[..], frameSize, f)
    }

    /** The first line of the frame holds nothing. */
    ghost predicate Unused(f: nat)
      requires Shaped() && f < numFrames
      reads memory
    {
      Frame(f)[0] == Null
    }

    /** fstore_init */
    constructor (storeSize: nat, frameSize: nat)
      requires 1 <= frameSize
      ensures Shaped() && this.frameSize == frameSize && memory.Length == storeSize
      ensures fresh(memory) && fresh(frameTable)
      ensures forall f :: 0 <= f < numFrames ==> Frame(f) == Blank(frameSize)
      ensures forall f :: 0 <= f < numFrames ==> frameTable[f] == FREE_ENTRY
    {
      this.frameSize := frameSize;
      numFrames := storeSize / frameSize;
      memory := new Slot[storeSize](i => Null);
      frameTable := new FrameTableEntry[storeSize / frameSize](i => FREE_ENTRY);
      new;
      forall f | 0 <= f < numFrames ensures Frame(f) == Blank(frameSize) { InBounds(f); }
    }

    /** fstore_find_available_frame: the least frame whose first line is unused. */
    method FindAvailableFrame() returns (frame: int)
      requires Shaped()
      ensures -1 <= frame < numFrames
      ensures frame != -1 ==> Unused(frame)
      ensures forall f :: 0 <= f < (if frame == -1 then numFrames else frame) ==> !Unused(f)
    {
      frame := 0;
      while frame < numFrames
        invariant 0 <= frame <= numFrames
        invariant forall f :: 0 <= f < frame ==> !Unused(f)
      {
        var address := frame * frameSize;
        InBounds(frame);
        assert Frame(frame)[0] == memory[address];
        if memory[address] == Null {
          return;
        }
        frame := frame + 1;
      }
      frame := -1;
    }

    /** fstore_get */
    method Get(address: nat) returns (value: Slot)
      requires address < memory.Length
      ensures value == memory[address]
    {
      value := memory[address];
    }

    /** fstore_set; the bound it checks admits the address one past the end, which no
        caller passes. */
    method Set(value: Line, address: int)
      requires address != memory.Length
      modifies memory
      ensures memory[..] == if 0 <= address < memory.Length then old(memory[..])[address := Stored(value)]
                            else old(memory[..])
    {
      if address < 0 || address > memory.Length {
        return;
      }
      memory[address] := Stored(value);
    }

    /** fstore_evict_frame: the frame becomes blank, the others are untouched. */
    method EvictFrame(frame: nat)
      requires Shaped() && frame < numFrames
      modifies memory
      ensures forall f :: 0 <= f < numFrames ==>
                Frame(f) == if f == frame then Blank(frameSize) else old(Frame(f))
    {
      InBounds(frame);
      var offset := 0;
      var base := frame * frameSize;
      while offset < frameSize
        invariant 0 <= offset <= frameSize
        invariant forall a :: 0 <= a < memory.Length ==>
                    memory[a] == if base <= a < base + offset then Null else old(memory[a])
      {
        memory[base + offset] := Null;
        offset := offset + 1;
      }
      forall f | 0 <= f < numFrames
        ensures Frame(f) == if f == frame then Blank(frameSize) else old(Frame(f))
      {
        InBounds(f);
        if f < frame { FramesApart(frameSize, f, frame); }
        if frame < f { FramesApart(frameSize, frame, f); }
      }
    }
  }
}
