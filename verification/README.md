# A verified model of pico-shell

pico-shell is a teaching shell written in C. This project models its two stateful parts in Dafny and proves what they
promise.

**Demand paging and scheduling** (`src/memory`, `src/scheduling`). Scripts are split into pages; a fixed store of frames
holds some of them; a doubly linked list orders the frames by use; FCFS, SJF, RR and AGING hand the lines to the
interpreter and fault pages in. The classes `LruLists.LruList`, `FrameStores.FrameStore`, `Memories.Memory`,
`ReadyQueues.ReadyQueue`, `Schedulers.Scheduler` and `Sessions.Shell` have the fields and loops of the C code. Handing a
line to the interpreter appends one event to the ghost `trace`. Each class is proved against small functions on values:
`Recency` (a store as the sequence of its pages by use), `IdealSchedules` (schedulers that never page) and `RoundRobin`
(turns of the queue together with the store). Frame size, store size and time slice are symbolic. The main results:

- under FCFS, SJF and AGING paging is invisible for every store of at least one frame, and a larger store never faults
  more, over whole sessions of commands; under FCFS and SJF no page faults twice;
- round robin stops exactly when at most as many processes survive their first turn as there are frames; otherwise it
  faults forever and runs nothing. So more than (k-1) * slice frames are enough but not needed: one frame for each of
  the k processes is, and then `exec` runs every line of every script once;
- who runs when: SJF never runs a longer script before a shorter one, AGING always runs a script whose length, lowered by
  its waiting, is least, and a turn of RR runs exactly as many lines as slice, file and resident pages allow;
- the pointer list, the frame table, the page tables and the contents of the frames never disagree.

**The block file system** (`src/fs`). `Disks.Disk` is the shared array of bytes. Every layer over it is a method that is
proved against a simpler thing: a bitmap against a set, a file against its sequence of bytes, a directory against a
finite map, a volume against a tree. The main results:

- a write splices its buffer into the contents across any number of blocks, whatever other files hold stays, every block
  keeps one owner, and the inode on disk never falls behind the one in memory;
- path resolution is a fold of directory lookup, blind to extra slashes;
- after `fs_init` and any run of `fs_create` the disk holds exactly the tree that the run describes: the links, the dot
  entries and the paths are those of the tree, every path keeps its meaning, each call succeeds exactly when the tree
  allows it, and the data blocks never run out; and every tree can be made that way;
- writing to a plain file keeps the tree and every path; creating on a volume with such files succeeds exactly when there
  are enough data blocks, and how far it gets without them is stated.

`FsCreate`, `FileWrite` and the others return `true` or a count where the C code returns 0 or a count, and `false` or -1
where it returns -1.

## Where the code does not do what it says

The code is followed as it is written. Each disagreement is a lemma with the exact condition, and a lemma with an input on
which the promise fails.

- A slice is lost to a page fault (src/scheduling/scheduler.c:94-126), so RR can livelock:
  `RoundRobin.StopsIffSurvivorsFit`, and two files of three lines in `RoundRobin.TwoFilesLivelock`.
- `dir_add` writes the bytes at the address of its pointer parameter into a hole (src/fs/directory.c:145-153), and every
  `dir_remove` leaves a hole: `DirSpec.AddInsertsIffNoHole`, and `DirSpec.AddFailsAfterRemove`.
- `file_read` is said to read up to the size, across the largest file size too (src/fs/file.c:13-21), but it stops at the
  end of the last block (src/fs/file.c:57-59) and returns -1 across that boundary: `Files.ReadKeepsPromiseIff`, and
  `Files.ReadPassesSize`.
- `fs_create` gives a plain file an inode that no directory leads to (src/fs/fs.c:173-206): `Trees.CreatedResolvesIff`,
  and `Trees.PlainFileIsLost`.
- src/fs/inode.h:23 calls `num_links` the number of directory entries that refer to an inode. The entries are two more
  than that for the root, one more for any other directory and one less for a plain file: `Links.LinksAreNotEntries`, and
  for no inode at all are they the same: `Links.LinksNeverCountEntries`.

## Model

| member | source | states |
|---|---|---|
| Recency.OneFrameMore | src/memory/lru.c:61-92 | Stack inclusion, by simulation: after the same preloads and uses, the pages of a store with one frame less are those of the larger store, or those with one page removed from the order of use; it has faulted at least as often. |
| Recency.MoreFramesNeverHurt | src/memory/lru.c:61-92 | For every sequence of preloads and uses and any two store sizes the larger store has at most as many faults (no Belady anomaly). |
| Recency.StepOk | src/memory/lru.c:69-92 | A use or a preload keeps the pages of a store distinct and within its frames. |
| Recency.ReferenceTwice | src/scheduling/scheduler.c:22-62 | Loading a page on a fault and using it afterwards is one use of that page, and one fault. |
| LruLists.LruList.constructor | src/memory/lru.c:23-42 | The linked list starts well formed, with the frames in numerical order. |
| LruLists.LruList.GetLruFrame | src/memory/lru.c:61-64 | The node in front of the tail sentinel is the last frame of the order. |
| LruLists.LruList.AccessFrame | src/memory/lru.c:69-92 | Relinking leaves a well-formed doubly linked list of the same nodes, whose order is the old one with that frame moved to the front. |
| LruLists.LruList.Unlink | src/memory/lru.c:73-85 | Taking a node out joins its neighbours and leaves the others in order. |
| LruLists.LruList.InsertFront | src/memory/lru.c:73-85 | Linking a node in behind the head sentinel puts it first. |
| LruHistory.OrderIsByLastAccess | src/memory/lru.c:61-92 | After any history of accesses the frames stand by falling time of last access, and those never used stand behind them in numerical order. |
| LruHistory.VictimIsOldest | src/memory/lru.c:61-64 | The victim is a frame whose last access is oldest. |
| LruHistory.AccessAll | src/memory/lru.c:69-92 | A list that serves any history of accesses, one call each, ends up in the order of that history, so that the two rows above speak of the linked list. |
| FrameStores.FrameStore.constructor | src/memory/frame_store.c:10-26 | Every slot and every frame table entry starts empty. |
| FrameStores.FrameStore.FindAvailableFrame | src/memory/frame_store.c:38-49 | The least frame whose first slot is empty, or -1 when there is none. |
| FrameStores.FrameStore.Get | src/memory/frame_store.c:55-63 | The line stored at an address of the store, or NULL. |
| FrameStores.FrameStore.Set | src/memory/frame_store.c:68-76 | One slot changes and no other; addresses outside the store are refused. |
| FrameStores.FrameStore.EvictFrame | src/memory/frame_store.c:78-86 | All slots of one frame are emptied and no other frame changes. |
| Residency.ResidentIff | src/memory/memory.c:57-101 | A page table entry is set exactly when that page is among the resident ones: frame table and page tables are inverse to each other. |
| Residency.PageInOneFrame | src/memory/memory.c:57-82 | No page is in two frames. |
| Residency.UnusedIffFree | src/memory/frame_store.c:38-49 | An empty first slot means that the whole frame is empty and nobody owns it. |
| Residency.VictimIsReal | src/memory/memory.c:89-101 | In a full store the least recently used frame belongs to a real page of a real process. |
| Residency.AccessOk | src/memory/lru.c:69-92 | Using a frame keeps the tables consistent and makes its page the most recent one. |
| Residency.FillOk | src/memory/memory.c:57-82 | Loading a page keeps the tables consistent and puts that page in front of the resident ones. |
| Residency.EvictOk | src/memory/memory.c:89-101 | Evicting keeps the tables consistent and takes exactly that page out of the resident ones. |
| Residency.AdoptOk | src/scheduling/pcb.c:11-27 | A new process with an empty page table leaves what is resident as it was. |
| Residency.LineInSlot | src/scheduling/scheduler.c:57-61 | The slot computed from the program counter is the one that holds that line. |
| Memories.Memory.constructor | src/memory/memory.c:15-25 | The memory starts consistent and holds no page. |
| Memories.Memory.FindAvailableFrame | src/memory/memory.c:84-87 | The least frame that nobody owns, or -1 exactly when as many pages are loaded as there are frames. |
| Memories.Memory.AccessFrame | src/memory/lru.c:69-92 | Using a frame moves its page to the front of the resident pages and changes no contents. |
| Memories.Memory.LoadPageIntoFrame | src/memory/memory.c:57-82 | The frame holds the lines of the page and empty slots behind a short one, both tables name each other, and the page is the most recently used one; a page outside the file is refused. |
| Memories.Memory.CopyPage | src/memory/memory.c:63-76 | The copying loop fills exactly one frame with the lines of the page. |
| Memories.Memory.FreeMemoryFrame | src/memory/memory.c:89-101 | The page that was last used longest ago leaves the store, its page table entry is cleared, and no other page is touched. |
| Memories.Memory.NotResident | src/memory/memory.c:57-101 | A page table entry is -1 exactly when the store does not hold that page. |
| Processes.PcbInit | src/scheduling/pcb.c:11-47 | A new process stands at line 0 with its length as its score, and its first two pages are preloaded while frames are free. |
| Processes.PreloadsTwoPages | src/scheduling/pcb.c:29-44 | The loading loop is at most two preloads, of the pages the file has. |
| Processes.CodeLoading | src/scheduling/pcb.c:29-44 | Code loading puts the first pages of the new process in front of the others, the later one first: two, or as many as the file has or as there are free frames. It evicts nothing and counts no fault. |
| Processes.PreloadPage | src/scheduling/pcb.c:29-44 | A preload takes a free frame, and changes nothing when there is none. |
| ReadyQueues.ReadyQueue.Append | src/scheduling/ready_queue.c:10-28 | The linked queue gains the process at its end; count and links stay right. |
| ReadyQueues.ReadyQueue.AppendLeft | src/scheduling/ready_queue.c:30-43 | The linked queue gains the process at its head. |
| ReadyQueues.ReadyQueue.Pop | src/scheduling/ready_queue.c:46-61 | The head is taken off and unlinked; an empty queue gives NULL. |
| ReadyQueues.ReadyQueue.Peek | src/scheduling/ready_queue.c:106-112 | The job score at the head, or -1. |
| ReadyQueues.ReadyQueue.Sort | src/scheduling/ready_queue.c:65-90 | The linked queue ends up as the exchange sort of its first three processes behind the rest, the same processes, each linked once. |
| ReadyQueues.ReadyQueue.Age | src/scheduling/ready_queue.c:92-103 | Every score falls by one, but not below 0, and nothing else changes. |
| JobSort.SortQueuePermutes | src/scheduling/ready_queue.c:65-90 | The sort loses and invents no process, for queues of any length. |
| JobSort.SortQueueSorts | src/scheduling/ready_queue.c:65-90 | Queues of at most three processes come out sorted by score. |
| JobSort.SortQueueKeepsHead | src/scheduling/ready_queue.c:65-90 | A head of least score stays in front: ties go to the process that just ran. |
| JobSort.SortOfTwo | src/scheduling/ready_queue.c:65-90 | Two jobs change places exactly when the first has the higher score. |
| JobSort.SortOfThree | src/scheduling/ready_queue.c:65-90 | Three jobs come out in order of score, equal ones in their old order, except that two equal ones in front of a lower one change places. |
| JobSort.SortQueueLong | src/scheduling/ready_queue.c:65-90 | Of a longer queue the first three are sorted and put behind the others, which keep their order. |
| IdealSchedules.AgeQueueKeepsOrder | src/scheduling/ready_queue.c:92-103 | Ageing keeps a sorted queue sorted in spite of the cap at 0. |
| IdealSchedules.FcfsRunsEveryLineOnce | src/scheduling/scheduler.c:12-70 | FCFS runs the rest of each file once, in file order. |
| IdealSchedules.AgingRunsEveryLineOnce | src/scheduling/scheduler.c:147-222 | However AGING interleaves, each file is run once, in file order. |
| IdealSchedules.AgingStaysSorted | src/scheduling/scheduler.c:153-219 | A dispatch keeps the queue sorted. |
| IdealSchedules.AgingDispatchesSorted | src/scheduling/scheduler.c:151-219 | After the first sort the queue is sorted at every dispatch. |
| IdealSchedules.AgingKeepsHead | src/scheduling/scheduler.c:205-218 | The running process goes on while no aged score is below its own. |
| IdealSchedules.AgingDropsHead | src/scheduling/scheduler.c:205-218 | It loses the processor once an aged score is below its own. |
| IdealSchedules.AgingRunsOn | src/scheduling/scheduler.c:153-219 | A running process of positive score s keeps the processor for its first a - s + 1 dispatches, a being the least waiting score. |
| IdealSchedules.AgingPreempts | src/scheduling/scheduler.c:153-219 | After the next dispatch another process, of lower score, is in front. |
| IdealSchedules.AgingZeroRunsOn | src/scheduling/scheduler.c:153-219 | A running process of score 0 is never preempted. |
| ScheduleOrder.FcfsPlaces | src/scheduling/scheduler.c:12-70 | Along an FCFS trace the places in the queue of the processes that run never decrease. |
| ScheduleOrder.FcfsInOrder | src/scheduling/scheduler.c:12-70 | FCFS runs no line of a process before the ones in front of it in the queue are done. |
| ScheduleOrder.FcfsUninterrupted | src/scheduling/scheduler.c:12-70 | Nobody runs between two lines of one process. |
| ScheduleOrder.SjfShortestFirst | src/scheduling/scheduler.c:72-77 | SJF runs a line of one process before a line of another only if the job score of the first is at most that of the second. |
| ScheduleOrder.SjfUninterrupted | src/scheduling/scheduler.c:72-77 | Under SJF too nobody runs between two lines of one process. |
| ScheduleOrder.AgingEvent | src/scheduling/scheduler.c:153-219 | Event k of AGING is the next line of the head of the queue that k dispatches leave, and there are as many events as lines. |
| ScheduleOrder.AgingDispatchesLeast | src/scheduling/scheduler.c:151-219 | Sorted first, AGING runs at each dispatch a process of least score among those in the queue. |
| ScheduleOrder.AgingStartsShortest | src/scheduling/scheduler.c:151-165 | So the first line is that of a process of least score in the queue as it was before the sort. |
| ScheduleOrder.AgingScores | src/scheduling/scheduler.c:205-218 | The score of a process after any number of dispatches is its first one, lowered once for each time that another process ran and stayed in the queue, but not below 0. |
| ScheduleOrder.AgingRunsLeast | src/scheduling/scheduler.c:147-222 | AGING without reference to queues: each line that is run belongs to a process whose score, lowered by its waiting so far, is at most that of every process with lines still to run. |
| IdealSchedules.RestFaults | src/scheduling/scheduler.c:18-63 | Running a file to its end has at most as many faults as it has pages left, one less if the page it stands on is there. |
| IdealSchedules.FcfsFaultsBounded | src/scheduling/scheduler.c:18-63 | Under FCFS the faults never exceed the number of pages of all files, for every store. |
| IdealSchedules.PagesOfFile | src/scheduling/scheduler.c:18-20 | The pages of a file not yet begun are its length divided by the frame size, rounded up. |
| PageFaults.RestFaultsOn | src/scheduling/scheduler.c:18-63 | Running a file to its end faults at most once on any page, never on one that lies behind the program counter or belongs to another process, and never on the page it stands on if that is there. |
| PageFaults.FcfsFaultsOncePerPage | src/scheduling/scheduler.c:12-70 | Under FCFS no page of any process faults twice, for every number of frames and whatever they hold at the start. |
| PageFaults.SjfFaultsOncePerPage | src/scheduling/scheduler.c:72-77 | The same for SJF. |
| PageFaults.FaultsAddUp | src/scheduling/scheduler.c:22-55 | Over any list of different pages that has all the used ones, the faults of the single pages add up to what the fault counter gains. |
| Schedulers.Scheduler.HandleFault | src/scheduling/scheduler.c:22-55 | Whatever the store holds, the missing page is in a frame afterwards and the store is that of one reference; one fault is counted. |
| Schedulers.Scheduler.LineInFrame | src/scheduling/scheduler.c:57-61 | The address computed for a resident page holds the line the program counter stands at. |
| Schedulers.Scheduler.RunLine | src/scheduling/scheduler.c:57-62 | Exactly the next line of the file is run, and its page is the most recently used one. |
| Schedulers.Scheduler.Fcfs | src/scheduling/scheduler.c:12-70 | For every store the trace is the files one after the other, the faults are those of that sequence of page uses, and the loop ends. |
| Schedulers.Scheduler.Sjf | src/scheduling/scheduler.c:72-77 | The same for the sorted queue: which order that is, the rows of `ScheduleOrder` say. |
| Schedulers.Scheduler.AgingDispatch | src/scheduling/scheduler.c:153-219 | One dispatch runs the next line of the head, faulting or not, and leaves the queue that a machine without paging would have. |
| Schedulers.Scheduler.Aging | src/scheduling/scheduler.c:147-222 | For every store the trace is that of AGING without paging, first sort included, and the loop ends; who runs when, the rows of `ScheduleOrder` say. |
| Schedulers.Scheduler.RunSlice | src/scheduling/scheduler.c:88-133 | The inner loop of RR is the slice on values, line by line and fault by fault; how long it is, `RoundRobin.SliceRunsUntil` says. |
| Schedulers.Scheduler.RrTurn | src/scheduling/scheduler.c:82-142 | A turn takes the head through one slice and puts it back at the end unless its file is finished. |
| Schedulers.Scheduler.Rr | src/scheduling/scheduler.c:79-145 | When the survivors of the first turns fit into the store the loop ends: some number of turns leads to an empty queue and to the store and trace at hand, so that every process has run the rest of its file once, in order, and nobody else has run anything. |
| RoundRobin.RunsPrefixes | src/scheduling/scheduler.c:82-142 | For every store, after any number of turns, a process has run exactly the lines up to its program counter, in file order. |
| RoundRobin.OthersRunNothing | src/scheduling/scheduler.c:82-142 | A process that is not in the queue runs nothing. |
| RoundRobin.RoundIsFair | src/scheduling/scheduler.c:82-142 | Between two turns of a process every other one has one turn, in queue order, in which it runs lines of its own: exactly as many as the slice, the file and the resident pages allow, with exactly the page uses and the fault that go with them. Then the first one has its turn again, unless it is finished. |
| RoundRobin.SliceRunsUntil | src/scheduling/scheduler.c:88-133 | A turn ends for three reasons only: the slice is used up, the file is finished, or the next page is absent. Every line before is on a resident page; only the third reason is a fault, just one, which leaves that page in front; the store is that of the pages used. |
| RoundRobin.RunsUntilUnique | src/scheduling/scheduler.c:88-133 | There is only one number of lines that a turn can run. |
| RoundRobin.TurnFinishesIff | src/scheduling/scheduler.c:88-142 | A turn finishes a process exactly when its rest fits into the slice and all the pages of that rest are in the store. |
| RoundRobin.FaultedPageStays | src/scheduling/scheduler.c:94-126 | With more than (k-1) * slice frames a process that lost its turn to a fault finds the page at its next turn. |
| RoundRobin.Livelock | src/scheduling/scheduler.c:94-126 | With more survivors than frames every further turn faults, no line is run and nobody leaves. |
| RoundRobin.StopsIffSurvivorsFit | src/scheduling/scheduler.c:79-145 | Round robin stops if and only if the processes left after everybody's first turn are at most as many as the frames. |
| RoundRobin.EnoughFrames | src/scheduling/scheduler.c:79-145 | One frame for each process is enough, and the number of turns is bounded by the work left. |
| RoundRobin.LongFilesNeedAFrameEach | src/scheduling/scheduler.c:79-145 | When every file is longer than the slice, one frame for each process is also necessary. |
| RoundRobin.TwoFilesLivelock | src/scheduling/scheduler.c:94-126 | Two files of three lines with one frame and a slice of two never finish. |
| Sessions.CommandRunsEveryLineOnce | src/commands/exec.c:15-35 | Under FCFS, SJF and AGING a command runs each line of each of its scripts once, in file order. |
| CommandOrder.FcfsInOrderOfScripts | src/commands/exec.c:22-23 | exec with FCFS runs the scripts in the order given. |
| CommandOrder.SjfShortScriptsFirst | src/commands/exec.c:24-25 | exec with SJF runs a line of one script before a line of another only if the first script is at most as long as the second; between two lines of one script there is none of another. |
| CommandOrder.AgingLeastScriptRuns | src/commands/exec.c:30-31 | exec with AGING runs at each dispatch a script whose length, lowered by its waiting so far, is at most that of every script with lines still to run. |
| CommandOrder.AgingShortestScriptStarts | src/commands/exec.c:30-31 | It starts with the first line of a shortest script. |
| Sessions.Shell.BuildReadyQueue | src/commands/exec.c:41-88 | The queue holds the new processes in the order of the scripts, with fresh numbers, and the store has preloaded their first pages in that order. |
| Sessions.Shell.Exec | src/commands/exec.c:15-35 | A command adds to the trace what its policy without paging would run, and uses the pages of that trace after preloading its scripts. |
| Sessions.Shell.ExecRr | src/commands/exec.c:26-29 | exec with RR or RR30, from loading the scripts on: when the scripts that outlive their first turn fit into the store it ends; turns of the ready queue have then led from the loaded scripts to an empty queue and to the store, the faults and the trace at hand, and every line of every script has been run once, in file order, and nothing else. |
| Sessions.AFrameEachIsEnough | src/commands/exec.c:26-29 | They fit whenever there are as many frames as scripts, whatever the store holds and however long slice and scripts are. |
| Sessions.LongScriptsNeedAFrameEach | src/commands/exec.c:26-29 | For scripts that are all longer than the slice they fit if and only if there are as many frames as scripts. |
| Sessions.TwoScriptsLivelock | src/commands/exec.c:26-29 | Two scripts of three lines, loaded into an empty store of one frame, never end with a slice of two. |
| Sessions.RanWhole | src/commands/exec.c:26-29 | The new events of each script are then exactly its lines, in order. |
| TextbookRr.ResidentIsTextbook | src/scheduling/scheduler.c:79-145 | While all pages of all processes are loaded, round robin with paging is round robin by the book, which knows no pages: each process in turn runs a slice or what is left of its file and goes to the end of the queue; and nothing faults. |
| TextbookRr.FirstPagesLoaded | src/commands/exec.c:41-88 | With two free frames for each script code loading brings in exactly the first two pages of every script, counts no fault, and no page leaves the store. |
| TextbookRr.ShortScriptsByTheBook | src/commands/exec.c:26-29 | So exec with RR on scripts of at most two pages and such a store runs them by the book, without a fault. |
| Sessions.Shell.RunSession | src/commands/exec.c:15-35 | Any sequence of commands runs what an ideal machine runs, for every frame size and store; finished processes may keep frames. |
| CommandOrder.SessionSplit | src/commands/exec.c:15-35 | What a session runs, and what it asks of the store, is what its commands do, one after the other, each with the process numbers behind those of all earlier commands. |
| CommandOrder.SessionRunsEveryLineOnce | src/commands/exec.c:15-35 | In a session each script of each command has its lines run once, in file order, under a process number of its own. |
| Sessions.MoreMemoryNeverHurts | src/memory/lru.c:61-92 | For any session under FCFS, SJF and AGING, preloads included, a larger store has at most as many faults. |
| Disks.Disk.Read | src/fs/disk.c:15-33 | Exactly the ranges inside the disk can be read. |
| Disks.Disk.Write | src/fs/disk.c:40-57 | A write inside the disk replaces those bytes, any other changes nothing. |
| Disks.Disk.BlockRead | src/fs/block.c:13-25 | Exactly the blocks of the disk can be read. |
| Disks.Disk.BlockWrite | src/fs/block.c:32-44 | One block changes and every other one stays. |
| Bitmaps.FindFree | src/fs/bitmap.c:11-39 | The least free bit below the limit, or -1 exactly when all are taken. |
| Bitmaps.Alloc | src/fs/bitmap.c:47-69 | A free bit becomes taken; a taken one is refused. |
| Bitmaps.Free | src/fs/bitmap.c:77-99 | A taken bit becomes free; a free one is refused. |
| Bitmaps.TakeAddsOne | src/fs/bitmap.c:47-69 | Taking a bit adds one member to the set of taken bits, most significant bit first. |
| Bitmaps.ReleaseRemovesOne | src/fs/bitmap.c:77-99 | Releasing removes one member. |
| Bitmaps.TakeThenRelease | src/fs/bitmap.c:47-99 | Taking a free bit and releasing it gives back the block byte for byte. |
| Records.InodeRoundTrip | src/fs/inode.h:19-25 | An inode of 32-bit fields comes back from its 64 bytes as it was. |
| Records.DirentRoundTrip | src/fs/directory.h:6-10 | So does a directory entry whose name fits with its terminator. |
| Layout.WithInodeAt | src/fs/inode.h:9-15 | Writing one slot of the inode table changes that inode and none of the others of its block. |
| Inodes.InodeAlloc | src/fs/inode.c:27-60 | The least free inode gets the record, with its number filled in, or nothing changes because all are in use. |
| Inodes.InodeRead | src/fs/inode.c:85-107 | Exactly the numbers of the table can be read. |
| Inodes.InodeUpdate | src/fs/inode.c:116-141 | One slot of the table changes. |
| Inodes.InodeDatamap | src/fs/inode.c:149-161 | A set pointer is used as it is; an unset one gets the least free block, zeroed. |
| Inodes.DataAlloc | src/fs/data.c:20-41 | The least data block that nobody had, zeroed and marked, or -1 exactly when all are taken. |
| Inodes.DataFree | src/fs/data.c:50-63 | A taken block is given back; anything else, -1 included, is refused. |
| Inodes.DataRead | src/fs/data.c:70-88 | Exactly the data blocks can be read. |
| Inodes.DataUpdate | src/fs/data.c:96-113 | One data block changes. |
| FileSpec.ChunkOk | src/fs/file.c:108-128 | One chunk is written as asked, in a new zeroed block when it starts behind the last one; or the disk is full and nothing has changed. |
| FileSpec.WriteAllOk | src/fs/file.c:108-128 | A run of chunks writes the whole buffer across any number of blocks and adds only pointers to blocks that were free; it stops early only on a full disk. |
| FileSpec.AcceptsBounds | src/fs/file.c:91-106 | The checks in front of the loop accept exactly offsets within the size, compared without sign, and ends within the largest file, wrap-around of 32-bit sums included. |
| FileSpec.WriteSplices | src/fs/file.c:80-140 | A successful write splices the buffer into the contents, leaves exactly the pointers the new size calls for, and brings the inode on disk up to date whenever the one in memory changed. |
| FileSpec.WriteKeepsZeroTail | src/fs/file.c:80-140 | The bytes between the end of a file and the end of its last block stay zeros through every successful write. |
| Files.FileRead | src/fs/file.c:22-72 | The bytes behind the pointers from the offset on, up to the end of the last block, in one piece. |
| Files.ReadWithinSize | src/fs/file.c:22-72 | A read within the size delivers exactly that slice of the contents. |
| Files.ReadStopsAtSizeIff | src/fs/file.c:14-72 | A read stops at the end of the file, as its comment says, if and only if it does not go past that end or the size is a multiple of the block size. |
| Files.ReadKeepsPromiseIff | src/fs/file.c:14-72 | The result is the number of bytes up to the end of the file, as the comment has it, if and only if nothing behind the end is asked for, or the size is a multiple of the block size and the range stays within the largest file; across that boundary the code returns -1. |
| Files.ReadRefusedIff | src/fs/file.c:33-48 | Refused are exactly the ranges that start behind the end of the file, end behind the largest file or have a negative length; every other read delivers at least what there is up to the end of the file and at most what was asked for. |
| Files.ReadPassesSize | src/fs/file.c:57-59 | A file of one byte delivers two. |
| Files.ZerosBehindContent | src/fs/file.c:22-72 | What there is to read of a file that was only ever written is its contents, followed by zeros up to the end of the last block. |
| Files.FileWrite | src/fs/file.c:80-140 | The loop on the disk does what the specification of a write says, byte for byte, on success and on failure. |
| Ownership.OneOwner | src/fs/inode.c:149-161 | A data block that a file uses is marked in the bitmap and has one owner: one inode, one pointer. |
| Ownership.WriteTouches | src/fs/file.c:80-140 | A write, failed or not, leaves superblock, inode bitmap, the slots of other inodes and all blocks that are not its own as they were; a failure within the limits means a full disk. |
| Ownership.WriteKeepsOthers | src/fs/file.c:80-140 | Every other file keeps its inode and every byte. |
| Ownership.OwnSlotOk | src/fs/file.c:108-137 | The slot of the written file describes a well-formed file, the new one after success and the old one after a failure. |
| Ownership.WriteKeepsFsOk | src/fs/file.c:80-140 | A write, failed or not, keeps every file well formed and every block owned once. |
| DirSpec.LookupIsMap | src/fs/directory.c:36-57 | A scan for a name agrees with the finite map from names to inode numbers. |
| DirSpec.EmptyIff | src/fs/directory.c:80-98 | The scan for another entry fails exactly when only dot keys are left. |
| DirSpec.AppendInserts | src/fs/directory.c:155-164 | Appending an entry under a fresh name inserts that key and keeps every other one. |
| DirSpec.WipeDeletes | src/fs/directory.c:204-228 | In a clean directory (valid names differ, other records are wiped) wiping the record of a name deletes that key and keeps every other one. |
| DirSpec.RemoveFindsIff | src/fs/directory.c:204-218 | The scan of dir_remove, which does not look at valid flags, finds a record exactly when the map of a clean directory has the key. |
| DirSpec.AddInsertsIffNoHole | src/fs/directory.c:132-164 | The new name can be looked up after dir_add, whatever the stray bytes behind a pointer that is not NULL, if and only if the directory has no hole. |
| DirSpec.AddFindsIff | src/fs/directory.c:132-164 | For each value of those bytes the new name is found if and only if there is no hole, or the stray record happens to be a valid entry of that name and number. |
| DirSpec.AddFailsAfterRemove | src/fs/directory.c:145-153 | Remove one of three entries and add another name: that name is not found. |
| DirSpec.WipeLeavesHole | src/fs/directory.c:210-219 | Every removal leaves a hole. |
| Directories.DirLookup | src/fs/directory.c:20-57 | The inode number of the first valid entry of that name, or -1; -1 for what is no directory. |
| Directories.DirEmpty | src/fs/directory.c:65-98 | 1 exactly for directories whose map has only dot keys, 0 for others, -1 for what is no directory. |
| Directories.DirAdd | src/fs/directory.c:105-164 | What is no directory and names that are there are refused and change nothing; else one record is written, at the end or over the first hole. |
| Directories.DirRemove | src/fs/directory.c:173-229 | Dot names, unknown names and what is no directory are refused and change nothing; else the first record of that name is zeroed. |
| DirMaps.AddInserts | src/fs/directory.c:105-164 | On disk, dir_add into a directory without holes inserts a fresh key, keeps every other and keeps the directory clean; when it fails no byte of the disk has changed, because an entry is one chunk. |
| DirMaps.RemoveDeletes | src/fs/directory.c:173-229 | On disk, dir_remove of a name that is there never fails, deletes exactly that key, keeps the directory clean and leaves a hole. |
| DirMaps.CreatedDirectoryOk | src/fs/fs.c:68-209 | Every directory that fs_init and fs_create have made is well formed and clean and has no hole, so that the two rows above apply to it. |
| Pathnames.ComponentsJoin | src/fs/pathname.c:95-127 | Cutting two paths joined by a slash gives the components of the first and then of the second. |
| Pathnames.ExtraSlashes | src/fs/pathname.c:95-127 | Extra leading, trailing and inner slashes do not change the components. |
| Pathnames.CutJoined | src/fs/pathname.c:95-127 | Cutting the path built from any names gives those names back. |
| Pathnames.Consume | src/fs/pathname.c:95-127 | The first component and a rest with the others; NULL, and an untouched buffer, when only slashes are left; the rest is empty exactly behind the last component. |
| Pathnames.Resolve | src/fs/pathname.c:39-81 | The loop ends, and its outcome is the fold of directory lookup over the components, or over all but the last, with the last one in the buffer. |
| Pathnames.WalkSplit | src/fs/pathname.c:39-81 | Following two lists of names in a row is following the second from where the first leads. |
| Pathnames.LookupViaParent | src/fs/pathname.c:17-29 | A path leads to x exactly when its parent path leads to a directory in which the last name leads to x. |
| Pathnames.PathLookup | src/fs/pathname.c:17-20 | Succeeds exactly for absolute paths all of whose components can be followed, with the inode they lead to. |
| Pathnames.PathLookupParent | src/fs/pathname.c:27-29 | Succeeds exactly when all but the last component lead to a directory. |
| Volumes.RecordIsOneChunk | src/fs/file.c:108-128 | A record at the end of a directory is written, with a new block exactly when the old ones are full, or nothing at all happens. |
| Volumes.AllocAppends | src/fs/inode.c:27-60 | On a volume whose inodes were handed out from the front, inode_alloc appends one blank inode, takes no data block, and keeps every file with all its bytes. |
| Volumes.LinksUpdate | src/fs/inode.c:116-141 | Writing an inode back with another link count changes that count and nothing else of the volume. |
| Volumes.AddEntry | src/fs/directory.c:155-164 | Appending an entry fails, and then changes no byte, if and only if the blocks of the directory are full and no data block is free; otherwise the entry is added, the least free block is taken if one was needed, and every other file keeps all its bytes. |
| Volumes.WriteHolds | src/fs/file.c:80-140 | A write to one file, failed or not, keeps every other file with all its bytes and all that the volume holds elsewhere. |
| Volumes.FrontFree | src/fs/data.c:20-41 | When the blocks in use are the first ones, all others are free. |
| Trees.LookupIsNext | src/fs/directory.c:36-57 | Looking a name up in the entries of a directory follows the edge of the tree: "." stays, ".." goes up, a name goes to that child. |
| Trees.PathLeadsThere | src/fs/fs.c:133-209 | Parents are older than their children, so every directory has a path from the root, and following it leads to that directory and to no other. |
| Trees.ChildrenCount | src/fs/fs.c:190-195 | A directory has as many child entries as directories name it as their parent. |
| Trees.DirSlots | src/fs/fs.c:173-206 | Adding a directory to the tree is: one new inode with ".", ".." and one link, and one more entry and one more link in its parent. |
| Trees.CreatedOk | src/fs/fs.c:133-209 | Creation keeps the tree a tree: parents exist, siblings differ, names fit and hold no slash. |
| Trees.CreatedResolvesIff | src/fs/fs.c:133-209 | The path just created leads to the fresh inode if and only if a directory was asked for. |
| Trees.PlainFileIsLost | src/fs/fs.c:173-206 | The plain file "/a" can be created on an empty volume, and its path leads nowhere. |
| Trees.CreatedKeepsPaths | src/fs/fs.c:133-209 | Every path that led somewhere leads to the same inode after any creation. |
| TreeVolumes.RoomForever | src/fs/fs.h:14-15 | However the at most 80 inodes are arranged, their directories use at most 90 of the 120 data blocks. |
| TreeVolumes.WalkIsFollow | src/fs/pathname.c:39-81 | Resolving names on the disk is following them in the tree it holds. |
| TreeVolumes.TreeOnDisk | src/fs/fs.c:68-107 | On disk, whatever the plain files hold, every directory is found by its path from the root, "." is itself, ".." its parent, and its link count is the number of its children, plus one unless it is the root. |
| TreeVolumes.WriteKeepsTree | src/fs/file.c:80-140 | A write to a plain file, failed or not, keeps every directory, every link count and the tree, and every byte of every other file. |
| TreeVolumes.WriteKeepsPaths | src/fs/file.c:80-140 | After a write to a plain file every path leads where it led before. |
| Links.LinksAreNotEntries | src/fs/inode.h:23 | The valid directory entries that refer to an inode are two more than its links for the root, one more for any other directory and one less for a plain file. |
| Links.LinksOnDiskAreNotEntries | src/fs/inode.h:23 | The same with the link count and the entries of all directories read from the disk. |
| Links.LinksNeverCountEntries | src/fs/inode.h:23 | For no inode is the link count the number of entries that refer to it. |
| FileSystems.SuperblockInit | src/fs/fs.c:44-59 | Block 0 starts with the superblock and no other block changes. |
| FileSystems.RootInit | src/fs/fs.c:68-107 | Succeeds exactly on an empty volume with a free data block, which then holds just the root, at inode 0; any other volume is refused, after an inode has been taken if one was left. |
| FileSystems.FsInit | src/fs/fs.c:24-42 | Succeeds exactly on an empty volume with a free data block, which then holds just the root; a second call fails and takes an inode, and all that the volume held stays. |
| FileSystems.RootHolds | src/fs/fs.c:24-42 | On a disk with no block in use, afterwards only the root has one. |
| FileSystems.ZerosHoldNothing | src/fs/disk.c:8 | The zeroed disk of the program start is an empty volume. |
| FileSystems.MakeDirectory | src/fs/fs.c:173-206 | How far the four writes for a new directory get: all of them if there are enough data blocks, one for the dot entries and one for the parent if its blocks are full; none if there is no block; all but the entry in the parent if there is one where two are needed. |
| FileSystems.FsCreate | src/fs/fs.c:133-209 | On any volume with a tree, whatever its plain files hold: refused, with no byte changed, unless the tree allows it (exactly when that is, the rows of `Creating` say); then it succeeds if and only if there are enough data blocks, and the disk shows the tree with the new node; without them it is exactly as far as the writes got, for there is no rollback. In every case all files but the parent keep their inodes and bytes. |
| FileSystems.CreateHolds | src/fs/fs.c:133-209 | On a volume on which only directories hold data the blocks never run out: fs_create succeeds exactly when the tree allows it, the disk then holds exactly the tree with the new node, and otherwise no byte has changed. |
| FileSystems.CreatedBlocks | src/fs/fs.c:173-206 | What the directories need grows by exactly the blocks that fs_create takes. |
| Runs.PathsStay | src/fs/fs.c:133-209 | In any run of requests a path that leads somewhere keeps leading to the same inode. |
| Runs.MakeVolume | src/fs/fs.c:24-209 | After fs_init and any run of requests, failed ones included, the disk holds exactly the tree of the run. |
| Runs.CreatedCanBeFound | src/fs/fs.c:133-209 | At the end of any run each directory that was created is found on disk by the path it was created with, at the inode it was given. |
| Creating.RoomInEveryDirectory | src/fs/fs.c:133-209 | In every directory of every tree, at any depth, any creatable name that is not there yet can be created while an inode is left, as a file and as a directory, and the tree gains exactly that node. |
| Creating.CanCreateIff | src/fs/fs.c:133-171 | What the tree allows, by where paths lead: the path leads nowhere, the path without its last name to a directory, it is absolute and not only slashes, the type is known, and an inode is left. |
| Creating.CreatedInDirectory | src/fs/fs.c:133-209 | On a disk fs_create of such a path succeeds, a directory needing at most two free data blocks; then the path of a new directory leads to its inode, and that of a new file still leads nowhere. |
| Creating.OneMoreRequest | src/fs/fs.c:133-209 | After any run of requests a further one for a new name in any directory succeeds and adds that node. |
| Creating.EveryTreeCanBeMade | src/fs/fs.c:133-209 | Every tree is what some run of requests leaves, all of them successful: the trees are exactly what fs_create can make. |

## Left out

- Schedulers.Scheduler.Rr: takes as a precondition that the survivors of the first turns fit into the store, because a
  method has to end; `RoundRobin.StopsIffSurvivorsFit` and `RoundRobin.Livelock` say what happens otherwise.
- Sessions.Shell.ExecRr: has the same precondition, for the same reason.
- Sessions.Shell.Exec: leaves RR to `Sessions.Shell.ExecRr`, since its schedule depends on the faults; monotonicity in the
  store size is not claimed for it. Under AGING it asks for scripts with at least one line: the code reads a line before
  it looks whether there is one, and hands NULL to the interpreter.
- Sessions.Shell.RunSession: is about sessions of FCFS, SJF and AGING commands with such scripts.
- Sessions.Shell.BuildReadyQueue: is about scripts with different names. `pcb_dup_init` copies a page table that is not
  kept up to date after an eviction, and no file contents, so sharing would not keep the tables consistent.
- Pathnames.Resolve: asks for components of at most 58 bytes; longer ones overrun the name buffer of the C code.
- Pathnames.PathLookup: the same.
- Pathnames.PathLookupParent: the same.
- FileSystems.FsCreate: the same, and for an absolute path at least one component; for "/" the C code reads the name buffer
  uninitialised.
- FileSystems.FsInit: is about disks that are volumes, the zeroed disk among them, and not about arbitrary bytes.
- Runs.MakeVolume: is about requests that `FileSystems.FsCreate` admits.
- Directories.DirAdd: over a hole the bytes written are arbitrary but for the first eight, which are those of a pointer that
  is not NULL; pointers are taken to have eight bytes.
- Files.FileRead: offsets are not negative and sums are unbounded; the signed overflow that src/fs/file.c:38-42 looks for
  is undefined in C.
- FrameStores.FrameStore.Set: asks that the address is not the one just behind the store, which the check in
  src/memory/frame_store.c:69 lets through; no caller passes it.
- Memories.Memory.LoadPageIntoFrame: asks for a free frame and a page that is not loaded, which is how every caller uses
  it; loading over another page would leave that one's page table entry behind. Page tables are sequences that are
  replaced, since the C struct embeds them.
- Memories.Memory.FreeMemoryFrame: is about the frame that get_lru_frame gives, which is the only one that is ever freed.
- Structs passed by pointer (struct inode, struct dirent) are passed in by value and returned; local block buffers are
  values. No two pointers to the same struct are modelled.
- Bytes behind the terminator of a name are written as zeros; the C code copies whatever follows it.
- The second store of a frame number into the page table, in src/scheduling/pcb.c, changes nothing and is an assertion.
- Lines that run exec or run themselves, and queues left over from a failed exec, which put more than three processes into
  the one queue.
- fs_delete, which normally fails half way because data_free refuses the unset pointers, and inode_free, which only it
  calls.
- fs_chdir and the current directory, which resolve never looks at.
- The shell front end: tokenizing, printing, error messages, error codes, fork, reading script files, and the variable
  store. A line handed to the interpreter is one event.
- malloc, free, lru_deinit, mem_deinit and the freeing part of pcb_deinit. The C code frees a PCB that the frame table
  still names (src/scheduling/pcb.c:91) and writes through that name when it evicts the page (src/memory/memory.c:94-96).
  Here finished processes stay reachable objects, so consistency from one command to the next assumes that this memory
  has not been handed out again.
