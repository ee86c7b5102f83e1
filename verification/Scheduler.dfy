/** src/scheduling/scheduler.c over the linked queue and the paged memory. A line handed
    to the interpreter is one event of the trace. */
module Schedulers {
  import Division
  import opened Recency
  import opened Jobs
  import opened JobSort
  import opened IdealSchedules
  import opened RoundRobin
  import opened Pcbs
  import opened FrameStores
  import opened Residency
  import opened Memories
  import opened Processes
  import opened ReadyQueues

  class Scheduler {
    const mem: Memory
    const queue: ReadyQueue
    var trace: seq<Event>
    var faults: nat

    /** Everything a schedule may change. */
    ghost function Objects(): set<object>
      reads this, mem, mem.lru
    {
      {this, queue, mem, mem.fstore.memory, mem.fstore.frameTable, mem.lru} + mem.lru.repr + mem.procs
    }

    /** The memory is consistent and has room for a page. */
    ghost predicate Ready()
      reads mem, mem.fstore.memory, mem.fstore.frameTable, mem.lru, mem.lru.repr, mem.procs`pageTable
    {
      mem.Valid() && 1 <= mem.fstore.numFrames && 1 <= mem.fstore.frameSize
    }

    ghost predicate Valid()
      reads queue, Members(queue.contents)`next
      reads mem, mem.fstore.memory, mem.fstore.frameTable, mem.lru, mem.lru.repr, mem.procs`pageTable
    {
      && Ready()
      && (forall p :: p in queue.contents ==> p in mem.procs)
      && queue.Valid()
    }

    ghost function Size(): nat {
      mem.fstore.frameSize
    }

    ghost function Paged(): Paging
      requires mem.Valid()
      reads this`faults
      reads mem, mem.fstore.memory, mem.fstore.frameTable, mem.lru, mem.lru.repr, mem.procs`pageTable
    {
      Store(mem, faults)
    }

    constructor (storeSize: nat, frameSize: nat)
      requires 1 <= frameSize <= storeSize
      ensures Valid() && fresh(Objects()) && queue.contents == [] && mem.procs == {} && trace == []
      ensures Size() == frameSize && Paged() == Empty(storeSize / frameSize)
    {
      mem := new Memory(storeSize, frameSize);
      queue := new ReadyQueue();
      trace, faults := [], 0;
      new;
      Division.Monotonic(frameSize, storeSize, frameSize);
    }

    lemma PagedOk()
      requires Ready()
      ensures Ok(Paged())
    {
      ResidentNoDup(mem.Now(), Size());
    }

    /** The next line of a process lies on a page of its page table. */
    lemma NextPageFits(pcb: PCB)
      requires Ready() && pcb in mem.procs && pcb.programCounter < |pcb.fileContents|
      ensures var page := pcb.programCounter / Size();
        && page < |pcb.pageTable| && page * Size() < |pcb.fileContents|
        && (pcb.pageTable[page] != -1 <==> NextPage(pcb.View(), Size()) in mem.Pages())
        && -1 <= pcb.pageTable[page] < mem.fstore.numFrames
    {
      assert PageTableOk(mem.Now(), pcb, Size());
      PageInTable(pcb.programCounter, Size());
      mem.NotResident(pcb, pcb.programCounter / Size());
    }

    /** A frame to load a page into: a free one, or else the least recently used one,
        emptied. */
    method MakeRoom() returns (frame: int)
      requires Ready()
      modifies mem`used, mem.fstore.memory, mem.fstore.frameTable, mem.procs`pageTable
      ensures Ready() && 0 <= frame < mem.fstore.numFrames && mem.fstore.frameTable[frame].pcb == null
      ensures mem.Pages() == if |old(mem.Pages())| < mem.fstore.numFrames then old(mem.Pages())
                             else old(mem.Pages())[..mem.fstore.numFrames - 1]
    {
      hide Memory.Valid, Memory.Pages;
      mem.PageCount();
      frame := mem.FindAvailableFrame();
      if frame == -1 {
        frame := mem.GetLruFrame();
        mem.FreeMemoryFrame(frame);
      }
    }

    /** The page fault code that all three schedulers share. */
    method HandleFault(pcb: PCB, page: nat) returns (frame: int)
      requires Ready()
      requires pcb in mem.procs && page < |pcb.pageTable| && pcb.pageTable[page] == -1
      requires page * Size() < |pcb.fileContents|
      modifies this`faults, mem`used, mem.fstore.memory, mem.fstore.frameTable
      modifies mem.lru`nodes, mem.lru.repr, mem.procs`pageTable
      ensures Ready() && Paged() == Reference(old(Paged()), PageId(pcb.pid, page))
      ensures page < |pcb.pageTable| && pcb.pageTable[page] == frame && 0 <= frame < mem.fstore.numFrames
    {
      hide Memory.Valid, Memory.Pages;
      mem.NotResident(pcb, page);
      frame := MakeRoom();
      mem.PageFits(pcb, page);
      mem.NotResident(pcb, page);
      mem.LoadPageIntoFrame(pcb, page, frame);
      faults := faults + 1;
    }

    /** The frame of a resident page holds the line the program counter points at. */
    lemma LineInFrame(pcb: PCB, frame: nat)
      requires Ready() && pcb in mem.procs && pcb.programCounter < |pcb.fileContents|
      requires pcb.programCounter / Size() < |pcb.pageTable|
      requires frame == pcb.pageTable[pcb.programCounter / Size()]
      ensures frame < mem.fstore.numFrames
      ensures mem.fstore.frameTable[frame] == FrameTableEntry(pcb.programCounter / Size(), pcb)
      ensures var address := frame * Size() + pcb.programCounter % Size();
        address < mem.fstore.memory.Length
        && mem.fstore.memory[address] == Stored(pcb.fileContents[pcb.programCounter])
    {
      var s := mem.Now();
      assert PageTableOk(s, pcb, Size());
      assert EntryOk(s, frame, Size());
      hide Memory.Valid, PageSlots, Consistent, PageTableOk;
      assert s.frames[frame] == mem.fstore.Frame(frame);
      LineInSlot(pcb.fileContents, pcb.programCounter, Size());
      mem.fstore.InBounds(frame);
      assert mem.fstore.Frame(frame)[pcb.programCounter % Size()]
          == mem.fstore.memory[frame * Size() + pcb.programCounter % Size()];
    }

    /** Marks the frame of the next line as used and reads the line out of it. */
    method Fetch(pcb: PCB, frame: int) returns (text: Line)
      requires Ready()
      requires pcb in mem.procs && pcb.programCounter < |pcb.fileContents|
      requires pcb.programCounter / Size() < |pcb.pageTable|
      requires 0 <= frame == pcb.pageTable[pcb.programCounter / Size()]
      modifies mem.lru`nodes, mem.lru.repr
      ensures Ready() && NextPage(pcb.View(), Size()) in old(mem.Pages())
      ensures mem.Pages() == MoveToFront(old(mem.Pages()), NextPage(pcb.View(), Size()))
      ensures text == pcb.fileContents[pcb.programCounter]
    {
      hide Memory.Valid, Memory.Pages;
      LineInFrame(pcb, frame);
      var offset := pcb.programCounter % mem.fstore.frameSize;
      var address := frame * mem.fstore.frameSize + offset;
      mem.AccessFrame(frame, pcb, pcb.programCounter / mem.fstore.frameSize);
      var value := mem.fstore.Get(address);
      text := value.text;
    }

    /** Runs the next line and moves the program counter. */
    method RunLine(pcb: PCB, frame: int)
      requires Ready()
      requires pcb in mem.procs && pcb.programCounter < |pcb.fileContents|
      requires pcb.programCounter / Size() < |pcb.pageTable|
      requires 0 <= frame == pcb.pageTable[pcb.programCounter / Size()]
      modifies this`trace, pcb`programCounter, mem.lru`nodes, mem.lru.repr
      ensures Ready() && NextPage(old(pcb.View()), Size()) in old(Paged()).order
      ensures Paged() == Reference(old(Paged()), NextPage(old(pcb.View()), Size()))
      ensures trace == old(trace) + [Current(old(pcb.View()))]
      ensures pcb.programCounter == old(pcb.programCounter) + 1
    {
      hide Memory.Valid, Memory.Pages;
      var text := Fetch(pcb, frame);
      trace := trace + [Executed(pcb.pid, pcb.programCounter, text)];
      pcb.programCounter := pcb.programCounter + 1;
    }

    // ----- FCFS and SJF

    /** One round of the inner loop of scheduler_fcfs: a fault, or a line. */
    method FaultOrRun(pcb: PCB, ghost goal: Goal)
      requires Valid() && pcb in mem.procs && pcb.programCounter < |pcb.fileContents|
      requires LeadsTo(Paged(), trace, pcb.View(), Size(), goal)
      modifies this`trace, this`faults, mem`used, mem.fstore.memory, mem.fstore.frameTable
      modifies mem.lru`nodes, mem.lru.repr, mem.procs`pageTable, pcb`programCounter
      ensures Valid() && pcb.programCounter <= |pcb.fileContents|
      ensures LeadsTo(Paged(), trace, pcb.View(), Size(), goal)
      ensures if NextPage(old(pcb.View()), Size()) in old(mem.Pages())
              then pcb.programCounter == old(pcb.programCounter) + 1
              else pcb.programCounter == old(pcb.programCounter) && NextPage(pcb.View(), Size()) in mem.Pages()
    {
      hide Memory.Valid, Memory.Pages, Run, Uses, RestOf, Reference;
      var page := pcb.programCounter / mem.fstore.frameSize;
      NextPageFits(pcb);
      PagedOk();
      var frame := pcb.pageTable[page];
      if frame == -1 {
        FaultChangesNothing(Paged(), pcb.View(), Size());
        frame := HandleFault(pcb, page);
        return;
      }
      LineIsOneUse(Paged(), trace, pcb.View(), Size());
      RunLine(pcb, frame);
    }

    /** The inner loop of scheduler_fcfs: one process to its end. */
    method RunToEnd(pcb: PCB)
      requires Valid() && pcb in mem.procs && pcb.programCounter <= |pcb.fileContents|
      modifies this`trace, this`faults, mem`used, mem.fstore.memory, mem.fstore.frameTable
      modifies mem.lru`nodes, mem.lru.repr, mem.procs`pageTable, pcb`programCounter
      ensures Valid() && pcb.programCounter == |pcb.fileContents|
      ensures trace == old(trace) + RestOf(old(pcb.View()))
      ensures Paged() == Run(old(Paged()), Uses(RestOf(old(pcb.View())), Size()))
    {
      hide Memory.Valid, Memory.Pages;
      ghost var goal := GoalOf(Paged(), trace, pcb.View(), Size());
      while pcb.programCounter < |pcb.fileContents|
        invariant Valid() && pcb.programCounter <= |pcb.fileContents|
        invariant LeadsTo(Paged(), trace, pcb.View(), Size(), goal)
        decreases |pcb.fileContents| - pcb.programCounter,
                  if NextPage(pcb.View(), Size()) in mem.Pages() then 0 else 1
      {
        FaultOrRun(pcb, goal);
      }
      NothingLeft(Paged(), trace, pcb.View(), Size(), goal);
    }

    method Fcfs()
      requires Valid() && WithinFile(queue.Jobs())
      modifies this`trace, this`faults, queue, mem`used, mem.fstore.memory, mem.fstore.frameTable
      modifies mem.lru`nodes, mem.lru.repr, mem.procs
      ensures Valid() && queue.contents == []
      ensures trace == old(trace) + FcfsTrace(old(queue.Jobs()))
      ensures Paged() == Run(old(Paged()), Uses(FcfsTrace(old(queue.Jobs())), Size()))
    {
      hide Memory.Valid, Memory.Pages;
      ghost var jobs := queue.Jobs();
      ghost var goal := Goal(Run(Paged(), Uses(FcfsTrace(jobs), Size())), trace + FcfsTrace(jobs));
      while queue.processCount > 0
        invariant Valid() && Shows(queue.contents, jobs) && WithinFile(jobs)
        invariant FcfsLeadsTo(Paged(), trace, jobs, Size(), goal)
        decreases |queue.contents|
      {
        FcfsRound(jobs, goal);
        jobs := jobs[1..];
      }
      assert Uses([], Size()) == [];
    }

    /** One round of the outer loop of scheduler_fcfs. */
    method FcfsRound(ghost jobs: seq<Job>, ghost goal: Goal)
      requires Valid() && queue.contents != [] && Shows(queue.contents, jobs) && WithinFile(jobs)
      requires FcfsLeadsTo(Paged(), trace, jobs, Size(), goal)
      modifies this`trace, this`faults, queue, mem`used, mem.fstore.memory, mem.fstore.frameTable
      modifies mem.lru`nodes, mem.lru.repr, mem.procs
      ensures Valid() && queue.contents == old(queue.contents)[1..]
      ensures Shows(queue.contents, jobs[1..]) && WithinFile(jobs[1..])
      ensures FcfsLeadsTo(Paged(), trace, jobs[1..], Size(), goal)
    {
      hide Memory.Valid, Memory.Pages, ReadyQueue.Valid, Run, Uses, RestOf, FcfsTrace;
      FcfsFirst(Paged(), trace, jobs, Size());
      var pcb := PopShown(jobs);
      RunToEnd(pcb);
    }

    /** Takes the head of the queue; the rest still shows the rest of the jobs. */
    method PopShown(ghost jobs: seq<Job>) returns (pcb: PCB)
      requires Valid() && queue.contents != [] && Shows(queue.contents, jobs)
      modifies queue, queue.First()`next
      ensures Valid() && queue.contents == old(queue.contents)[1..]
      ensures pcb == old(queue.contents)[0] && pcb !in queue.contents && pcb.next == null && pcb in mem.procs
      ensures pcb.View() == jobs[0] && Shows(queue.contents, jobs[1..])
      ensures Paged() == old(Paged())
    {
      hide Memory.Valid, Memory.Pages;
      pcb := queue.Pop();
    }

    method Sjf()
      requires Valid() && WithinFile(queue.Jobs())
      modifies this`trace, this`faults, queue, mem`used, mem.fstore.memory, mem.fstore.frameTable
      modifies mem.lru`nodes, mem.lru.repr, mem.procs
      ensures Valid() && queue.contents == []
      ensures trace == old(trace) + SjfTrace(old(queue.Jobs()))
      ensures Paged() == Run(old(Paged()), Uses(SjfTrace(old(queue.Jobs())), Size()))
    {
      hide Memory.Valid, Memory.Pages, Run, Uses, FcfsTrace;
      SortQueuePermutes(queue.Jobs());
      SortQueue();
      Fcfs();
    }

    /** sort_ready_queue, seen from the scheduler. */
    method SortQueue()
      requires Valid()
      modifies queue, Members(queue.contents)`next
      ensures Valid() && queue.Jobs() == JobSort.SortQueue(old(queue.Jobs()))
      ensures multiset(queue.contents) == multiset(old(queue.contents)) && Paged() == old(Paged())
    {
      hide Memory.Valid, Memory.Pages;
      ghost var before := queue.contents;
      queue.Sort();
      forall p | p in queue.contents ensures p in mem.procs {
        assert p in multiset(queue.contents);
        assert p in multiset(before);
      }
    }

    // ----- AGING

    /** The first half of the body of scheduler_aging: the next line of the popped process,
        faulting its page in first when it is absent. */
    method AgingLine(pcb: PCB)
      requires Valid() && pcb in mem.procs && pcb.programCounter < |pcb.fileContents|
      modifies this`trace, this`faults, mem`used, mem.fstore.memory, mem.fstore.frameTable
      modifies mem.lru`nodes, mem.lru.repr, mem.procs`pageTable, pcb`programCounter
      ensures Valid() && pcb.programCounter == old(pcb.programCounter) + 1
      ensures trace == old(trace) + [Current(old(pcb.View()))]
      ensures Paged() == Reference(old(Paged()), NextPage(old(pcb.View()), Size()))
    {
      hide Memory.Valid, Memory.Pages, MoveToFront, Load;
      var page := pcb.programCounter / mem.fstore.frameSize;
      NextPageFits(pcb);
      PagedOk();
      var frame := pcb.pageTable[page];
      if frame == -1 {
        ReferenceTwice(Paged(), NextPage(pcb.View(), Size()));
        frame := HandleFault(pcb, page);
      }
      RunLine(pcb, frame);
    }

    /** One dispatch of scheduler_aging. */
    method AgingDispatch(ghost jobs: seq<Job>)
      requires Valid() && queue.contents != [] && Shows(queue.contents, jobs) && AllUnfinished(jobs)
      modifies this`trace, this`faults, queue, mem`used, mem.fstore.memory, mem.fstore.frameTable
      modifies mem.lru`nodes, mem.lru.repr, mem.procs
      ensures Valid() && Shows(queue.contents, AgingNext(jobs))
      ensures trace == old(trace) + [Current(jobs[0])]
      ensures Paged() == Reference(old(Paged()), NextPage(jobs[0], Size()))
    {
      hide Memory.Valid, Memory.Pages, Reference, ReadyQueue.Valid, AgeQueue, JobSort.SortQueue;
      assert jobs[0] in jobs;
      var pcb := PopShown(jobs);
      AgingLine(pcb);
      if pcb.programCounter == |pcb.fileContents| {
        return;
      }
      AgeAndRequeue(pcb, jobs);
    }

    /** The second half of the body of scheduler_aging: age the others, put the process back
        in front of them, and sort. */
    method AgeAndRequeue(pcb: PCB, ghost jobs: seq<Job>)
      requires Valid() && pcb in mem.procs && pcb !in queue.contents && pcb.next == null
      requires jobs != [] && Shows(queue.contents, jobs[1..]) && pcb.View() == Advance(jobs[0])
      modifies queue, pcb`next, Members(queue.contents)`next, Members(queue.contents)`jobScore
      ensures Valid() && Shows(queue.contents, JobSort.SortQueue([Advance(jobs[0])] + AgeQueue(jobs[1..])))
      ensures Paged() == old(Paged())
    {
      hide Memory.Valid, Memory.Pages, JobSort.SortQueue, Views;
      ShowsViews(queue.contents, jobs[1..]);
      queue.Age();
      ShowsViews(queue.contents, AgeQueue(jobs[1..]));
      assert pcb.View() == Advance(jobs[0]);
      Requeue(pcb, AgeQueue(jobs[1..]));
    }

    method Requeue(pcb: PCB, ghost others: seq<Job>)
      requires Valid() && pcb in mem.procs && pcb !in queue.contents && pcb.next == null
      requires Shows(queue.contents, others)
      modifies queue, pcb`next, Members(queue.contents)`next
      ensures Valid() && Shows(queue.contents, JobSort.SortQueue([old(pcb.View())] + others))
      ensures Paged() == old(Paged())
    {
      hide Memory.Valid, Memory.Pages, JobSort.SortQueue, Views;
      ghost var all := [pcb.View()] + others;
      ShowsCons(pcb, queue.contents, others);
      queue.AppendLeft(pcb);
      assert Shows(queue.contents, all);
      ShowsViews(queue.contents, all);
      SortQueue();
      ShowsViews(queue.contents, JobSort.SortQueue(all));
    }

    method Aging()
      requires Valid() && AllUnfinished(queue.Jobs())
      modifies this`trace, this`faults, queue, mem`used, mem.fstore.memory, mem.fstore.frameTable
      modifies mem.lru`nodes, mem.lru.repr, mem.procs
      ensures Valid() && queue.contents == []
      ensures trace == old(trace) + AgingSchedule(old(queue.Jobs()))
      ensures Paged() == Run(old(Paged()), Uses(AgingSchedule(old(queue.Jobs())), Size()))
    {
      hide Memory.Valid, Memory.Pages, Run, Uses, AgingTrace, AgingNext, AgingLeadsTo, Reference;
      SortQueuePermutes(queue.Jobs());
      SortQueue();
      ghost var jobs := queue.Jobs();
      ghost var goal := Goal(Run(Paged(), Uses(AgingTrace(jobs), Size())), trace + AgingTrace(jobs));
      AgingStarts(Paged(), trace, jobs, Size());
      while queue.processCount > 0
        invariant Valid() && Shows(queue.contents, jobs) && AllUnfinished(jobs)
        invariant AgingLeadsTo(Paged(), trace, jobs, Size(), goal)
        decreases Remaining(jobs)
      {
        AgingNextRuns(jobs);
        AgingGoesOn(Paged(), trace, jobs, Size(), goal);
        AgingDispatch(jobs);
        jobs := AgingNext(jobs);
      }
      AgingOver(Paged(), trace, Size(), goal);
    }

    // ----- Round robin

    /** The inner loop of scheduler_rr: up to `timeSlice` lines, ended early by the end of
        the file or by a fault. */
    method RunSlice(pcb: PCB, timeSlice: nat)
      requires Valid() && pcb in mem.procs && pcb.programCounter <= |pcb.fileContents|
      modifies this`trace, this`faults, mem`used, mem.fstore.memory, mem.fstore.frameTable
      modifies mem.lru`nodes, mem.lru.repr, mem.procs`pageTable, pcb`programCounter
      ensures Valid() && pcb.programCounter <= |pcb.fileContents|
      ensures Running(pcb.View(), Paged(), trace)
           == Slice(Running(old(pcb.View()), old(Paged()), old(trace)), Size(), timeSlice)
    {
      hide Memory.Valid, Memory.Pages, ReadyQueue.Valid, Reference, Slice;
      ghost var goal := Slice(Running(pcb.View(), Paged(), trace), Size(), timeSlice);
      var i := 0;
      while i < timeSlice
        invariant 0 <= i <= timeSlice && Valid() && pcb.programCounter <= |pcb.fileContents|
        invariant Slice(Running(pcb.View(), Paged(), trace), Size(), timeSlice - i) == goal
      {
        var more := SliceLine(pcb, timeSlice - i);
        if !more {
          return;
        }
        i := i + 1;
      }
      SliceOver(Running(pcb.View(), Paged(), trace), Size());
    }

    /** The body of that loop; `more` is false where the code breaks out of it. */
    method SliceLine(pcb: PCB, ghost n: nat) returns (more: bool)
      requires Valid() && pcb in mem.procs && pcb.programCounter <= |pcb.fileContents| && n > 0
      modifies this`trace, this`faults, mem`used, mem.fstore.memory, mem.fstore.frameTable
      modifies mem.lru`nodes, mem.lru.repr, mem.procs`pageTable, pcb`programCounter
      ensures Valid() && pcb.programCounter <= |pcb.fileContents|
      ensures Slice(Running(old(pcb.View()), old(Paged()), old(trace)), Size(), n)
           == if more then Slice(Running(pcb.View(), Paged(), trace), Size(), n - 1)
              else Running(pcb.View(), Paged(), trace)
    {
      hide Memory.Valid, Memory.Pages, Reference;
      if pcb.programCounter == |pcb.fileContents| {
        return false;
      }
      var page := pcb.programCounter / mem.fstore.frameSize;
      NextPageFits(pcb);
      var frame := pcb.pageTable[page];
      if frame == -1 {
        frame := HandleFault(pcb, page);
        return false;
      }
      RunLine(pcb, frame);
      more := true;
    }

    /** One round of the outer loop of scheduler_rr: a turn of the process at the head. */
    method RrTurn(timeSlice: nat, ghost jobs: seq<Job>)
      requires Valid() && queue.contents != [] && Shows(queue.contents, jobs) && WithinFile(jobs)
      modifies this`trace, this`faults, queue, mem`used, mem.fstore.memory, mem.fstore.frameTable
      modifies mem.lru`nodes, mem.lru.repr, mem.procs
      ensures Valid()
      ensures var t := Turn(System(jobs, old(Paged()), old(trace)), Size(), timeSlice);
        Shows(queue.contents, t.queue) && Paged() == t.mem && trace == t.trace
    {
      hide Memory.Valid, Memory.Pages, Slice, Reference, ReadyQueue.Valid;
      assert jobs[0] in jobs;
      var pcb := PopShown(jobs);
      RunSlice(pcb, timeSlice);
      if pcb.programCounter == |pcb.fileContents| {
        return;
      }
      AppendShown(pcb, jobs[1..]);
    }

    /** append_process, seen from the scheduler. */
    method AppendShown(pcb: PCB, ghost jobs: seq<Job>)
      requires Valid() && pcb in mem.procs && pcb !in queue.contents && pcb.next == null
      requires Shows(queue.contents, jobs)
      modifies queue, queue.Last()`next
      ensures Valid() && queue.contents == old(queue.contents) + [pcb]
      ensures Shows(queue.contents, jobs + [pcb.View()]) && Paged() == old(Paged())
    {
      hide Memory.Valid, Memory.Pages;
      ShowsAppend(pcb, queue.contents, jobs);
      queue.Append(pcb);
    }

    lemma JobsGood(timeSlice: nat, jobs: seq<Job>)
      requires Valid() && Shows(queue.contents, jobs) && WithinFile(jobs) && 1 <= timeSlice
      ensures Good(System(jobs, Paged(), trace), Size(), timeSlice)
    {
      PagedOk();
      forall i, k | 0 <= i < k < |jobs| ensures jobs[i].pid != jobs[k].pid {
        assert queue.contents[i].View() == jobs[i] && queue.contents[k].View() == jobs[k];
        assert queue.contents[i] in mem.procs && queue.contents[k] in mem.procs;
      }
    }

    /** scheduler_rr, for the systems on which it stops: at most as many processes survive
        their first turn as there are frames. Every line of every file is run once. */
    method Rr(timeSlice: nat, ghost jobs: seq<Job>)
      requires Valid() && Shows(queue.contents, jobs) && 1 <= timeSlice
      requires Good(System(jobs, Paged(), trace), Size(), timeSlice)
      requires |Survivors(System(jobs, Paged(), trace), Size(), timeSlice)| <= mem.fstore.numFrames
      modifies this`trace, this`faults, queue, mem`used, mem.fstore.memory, mem.fstore.frameTable
      modifies mem.lru`nodes, mem.lru.repr, mem.procs
      ensures Valid() && queue.contents == []
      ensures exists n: nat :: System([], Paged(), trace)
                == Turns(System(jobs, old(Paged()), old(trace)), Size(), timeSlice, n)
      ensures RanAll(jobs, old(trace), trace)
    {
      hide Memory.Valid, Memory.Pages, Turn, Turns, Survivors, RanAll;
      NoTurns(System(jobs, Paged(), trace), Size(), timeSlice);
      ghost var start := System(jobs, Paged(), trace);
      StopsIffSurvivorsFit(start, Size(), timeSlice);
      ghost var stop: nat :| Turns(start, Size(), timeSlice, stop).queue == [];
      ghost var now, n := jobs, 0;
      while queue.processCount > 0
        invariant Valid() && Shows(queue.contents, now) && n <= stop
        invariant System(now, Paged(), trace) == Turns(start, Size(), timeSlice, n)
        decreases stop - n
      {
        NextTurn(start, Size(), timeSlice, n, stop);
        RrTurn(timeSlice, now);
        now := Turns(start, Size(), timeSlice, n + 1).queue;
        n := n + 1;
      }
      assert now == [];
      EveryLineOnce(start, Size(), timeSlice, n);
    }
  }

  /** The store and the trace a schedule is to end with. */
  datatype Goal = Goal(mem: Paging, trace: seq<Event>)

  function GoalOf(m: Paging, trace: seq<Event>, j: Job, size: nat): Goal
    requires 1 <= m.cap && 1 <= size && j.pc <= |j.lines|
  {
    Goal(Run(m, Uses(RestOf(j), size)), trace + RestOf(j))
  }

  /** Running the rest of `j` from here ends with `goal`. */
  ghost predicate LeadsTo(m: Paging, trace: seq<Event>, j: Job, size: nat, goal: Goal) {
    1 <= m.cap && 1 <= size && j.pc <= |j.lines| && GoalOf(m, trace, j, size) == goal
  }

  lemma NothingLeft(m: Paging, trace: seq<Event>, j: Job, size: nat, goal: Goal)
    requires LeadsTo(m, trace, j, size, goal) && !Unfinished(j)
    ensures goal == Goal(m, trace)
  {
    assert RestOf(j) == [] && Uses([], size) == [];
  }

  /** Loading the next page first does not change what running the rest does to the store. */
  lemma FaultChangesNothing(m: Paging, j: Job, size: nat)
    requires Ok(m) && 1 <= size && Unfinished(j)
    ensures Run(Reference(m, NextPage(j, size)), Uses(RestOf(j), size)) == Run(m, Uses(RestOf(j), size))
    ensures NextPage(j, size) in Reference(m, NextPage(j, size)).order
  {
    UsesStep(j, size);
    ReferenceTwice(m, NextPage(j, size));
    assert Reference(m, NextPage(j, size)).order[0] == NextPage(j, size);
  }

  lemma LineIsOneUse(m: Paging, trace: seq<Event>, j: Job, size: nat)
    requires Ok(m) && 1 <= size && Unfinished(j)
    ensures GoalOf(m, trace, j, size)
         == GoalOf(Reference(m, NextPage(j, size)), trace + [Current(j)], Advance(j), size)
  {
    UsesStep(j, size);
    RestOfStep(j);
    Associate(trace, Current(j), RestOf(Advance(j)));
  }

  ghost predicate FcfsLeadsTo(m: Paging, trace: seq<Event>, jobs: seq<Job>, size: nat, goal: Goal) {
    1 <= m.cap && 1 <= size && WithinFile(jobs)
    && goal == Goal(Run(m, Uses(FcfsTrace(jobs), size)), trace + FcfsTrace(jobs))
  }

  lemma FcfsFirst(m: Paging, trace: seq<Event>, jobs: seq<Job>, size: nat)
    requires 1 <= m.cap && 1 <= size && WithinFile(jobs) && jobs != []
    ensures jobs[0].pc <= |jobs[0].lines| && WithinFile(jobs[1..])
    ensures trace + FcfsTrace(jobs) == trace + RestOf(jobs[0]) + FcfsTrace(jobs[1..])
    ensures Run(m, Uses(FcfsTrace(jobs), size))
         == Run(Run(m, Uses(RestOf(jobs[0]), size)), Uses(FcfsTrace(jobs[1..]), size))
  {
    assert jobs[0] in jobs;
    UsesConcat(RestOf(jobs[0]), FcfsTrace(jobs[1..]), size);
    RunConcat(m, Uses(RestOf(jobs[0]), size), Uses(FcfsTrace(jobs[1..]), size));
  }

  ghost predicate AgingLeadsTo(m: Paging, trace: seq<Event>, jobs: seq<Job>, size: nat, goal: Goal) {
    1 <= m.cap && 1 <= size && AllUnfinished(jobs)
    && goal == Goal(Run(m, Uses(AgingTrace(jobs), size)), trace + AgingTrace(jobs))
  }

  lemma AgingFirst(m: Paging, trace: seq<Event>, jobs: seq<Job>, size: nat)
    requires 1 <= m.cap && 1 <= size && AllUnfinished(jobs) && jobs != []
    ensures AllUnfinished(AgingNext(jobs)) && Unfinished(jobs[0])
    ensures trace + AgingTrace(jobs) == trace + [Current(jobs[0])] + AgingTrace(AgingNext(jobs))
    ensures Run(m, Uses(AgingTrace(jobs), size))
         == Run(Reference(m, NextPage(jobs[0], size)), Uses(AgingTrace(AgingNext(jobs)), size))
  {
    AgingNextRuns(jobs);
    assert jobs[0] in jobs;
    var rest := AgingTrace(AgingNext(jobs));
    Associate(trace, Current(jobs[0]), rest);
    var uses := Uses(AgingTrace(jobs), size);
    assert uses[0] == Use(NextPage(jobs[0], size)) && uses[1..] == Uses(rest, size);
  }

  lemma AgingStarts(m: Paging, trace: seq<Event>, jobs: seq<Job>, size: nat)
    requires 1 <= m.cap && 1 <= size && AllUnfinished(jobs)
    ensures AgingLeadsTo(m, trace, jobs, size, Goal(Run(m, Uses(AgingTrace(jobs), size)), trace + AgingTrace(jobs)))
  {
  }

  lemma AgingGoesOn(m: Paging, trace: seq<Event>, jobs: seq<Job>, size: nat, goal: Goal)
    requires AgingLeadsTo(m, trace, jobs, size, goal) && jobs != []
    ensures AllUnfinished(AgingNext(jobs)) && Unfinished(jobs[0])
    ensures AgingLeadsTo(Reference(m, NextPage(jobs[0], size)), trace + [Current(jobs[0])], AgingNext(jobs), size, goal)
  {
    hide Run, Uses, AgingTrace, AgingNext;
    AgingFirst(m, trace, jobs, size);
  }

  lemma AgingOver(m: Paging, trace: seq<Event>, size: nat, goal: Goal)
    requires AgingLeadsTo(m, trace, [], size, goal)
    ensures goal == Goal(m, trace)
  {
    assert Uses([], size) == [];
  }

  lemma NoTurns(s: System, size: nat, slice: nat)
    requires Good(s, size, slice)
    ensures Turns(s, size, slice, 0) == s
  {
  }

  /** A system that has not stopped has one more turn to take before it does. */
  lemma NextTurn(start: System, size: nat, slice: nat, n: nat, stop: nat)
    requires Good(start, size, slice) && n <= stop
    requires Turns(start, size, slice, n).queue != [] && Turns(start, size, slice, stop).queue == []
    ensures n < stop && Turns(start, size, slice, n + 1) == Turn(Turns(start, size, slice, n), size, slice)
  {
    TurnsAdd(start, size, slice, n, 1);
    assert Turns(Turns(start, size, slice, n), size, slice, 1) == Turn(Turns(start, size, slice, n), size, slice);
  }

  /** Between the two traces each of the processes has run the rest of its file once, in file
      order, and nobody else has run anything. */
  ghost predicate RanAll(jobs: seq<Job>, before: seq<Event>, after: seq<Event>) {
    && (forall j :: j in jobs ==>
          j.pc <= |j.lines| && Project(after, j.pid) == Project(before, j.pid) + RestOf(j))
    && forall pid: nat :: (forall j :: j in jobs ==> j.pid != pid) ==> Project(after, pid) == Project(before, pid)
  }

  /** Once the queue is empty every process has run all its lines, in file order. */
  lemma EveryLineOnce(start: System, size: nat, slice: nat, n: nat)
    requires Good(start, size, slice) && Turns(start, size, slice, n).queue == []
    ensures RanAll(start.queue, start.trace, Turns(start, size, slice, n).trace)
  {
    forall pid: nat | forall j :: j in start.queue ==> j.pid != pid
      ensures Project(Turns(start, size, slice, n).trace, pid) == Project(start.trace, pid)
    {
      OthersRunNothing(start, size, slice, n, pid);
    }
    forall j | j in start.queue
      ensures Project(Turns(start, size, slice, n).trace, j.pid) == Project(start.trace, j.pid) + RestOf(j)
    {
      var before := Project(start.trace, j.pid);
      assert RestOf(j)[..0] == [];
      assert Live(j, before, start, j);
      RunsPrefixes(j, before, start, size, slice, n);
    }
  }
}
