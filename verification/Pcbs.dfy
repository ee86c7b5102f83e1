/** struct PCB of src/scheduling/pcb.h. The page table is an array inside the struct,
    so it is a sequence field here: it is never shared and never outlives its PCB. */
module Pcbs {
  import opened Jobs

  /** The longest script, in lines. */
  const MAX_FILE_SIZE: nat := 100

  /** MAX_PAGE_TABLE_SIZE: the number of pages of the longest script, rounded up. */
  function TableSize(frameSize: nat): nat
    requires 1 <= frameSize
  {
    (MAX_FILE_SIZE + frameSize - 1) / frameSize
  }

  class PCB {
    const pid: nat
    const fileContents: seq<Line>
    var pageTable: seq<int>
    var programCounter: nat
    var jobScore: int
    var next: PCB?

    constructor (pid: nat, fileContents: seq<Line>, tableSize: nat)
      ensures this.pid == pid && this.fileContents == fileContents
      ensures pageTable == seq(tableSize, i => -1)
      ensures programCounter == 0 && jobScore == |fileContents| && next == null
    {
      this.pid, this.fileContents := pid, fileContents;
      pageTable := seq(tableSize, i => -1);
      programCounter, jobScore, next := 0, |fileContents|, null;
    }

    ghost function View(): Job
      reads this`programCounter, this`jobScore
    {
      Job(pid, fileContents, programCounter, jobScore)
    }
  }
}
