/** Whole sessions: exec commands (src/commands/exec.c) one after the other on one store,
    under the three policies whose schedule does not depend on faults. */
module Sessions {
  import Division
  import opened Recency
  import opened Jobs
  import opened JobSort
  import opened IdealSchedules
  import opened RoundRobin
  import opened Pcbs
  import opened Memories
  import opened Processes
  import opened ReadyQueues
  import opened Schedulers

  datatype Policy = FCFS | SJF | AGING

  /** One exec: up to three different scripts and a policy. */
  datatype Command = Command(scripts: seq<seq<Line>>, policy: Policy)

  /** Scripts that one exec takes. */
  predicate Loadable(scripts: seq<seq<Line>>) {
    |scripts| <= MAX_NUM_PROGRAMS && forall f :: f in scripts ==> |f| <= MAX_FILE_SIZE
  }

  /** Under AGING a process reads a line before it looks whether it has any. */
  predicate Runnable(c: Command) {
    && Loadable(c.scripts)
    && (c.policy == AGING ==> forall f :: f in c.scripts ==> |f| > 0)
  }

  /** The processes of a command; the score of a new process is its length. */
  function JobsOf(scripts: seq<seq<Line>>, pid: nat): (r: seq<Job>)
    ensures |r| == |scripts|
  {
    seq(|scripts|, i requires 0 <= i < |scripts| => Job(pid + i, scripts[i], 0, |scripts[i]|))
  }

  function Preloads(scripts: seq<seq<Line>>, pid: nat, size: nat): seq<Op>
    decreases scripts
  {
    if scripts == [] then []
    else
      var last := |scripts| - 1;
      Preloads(scripts[..last], pid, size) + PreloadOps(pid + last, |scripts[last]|, size)
  }

  lemma NoScripts(m: Paging, pid: nat, size: nat)
    requires 1 <= m.cap
    ensures JobsOf([], pid) == [] && Run(m, Preloads([], pid, size)) == m
  {
  }

  lemma OneMoreScript(m: Paging, scripts: seq<seq<Line>>, i: nat, pid: nat, size: nat)
    requires 1 <= m.cap && i < |scripts|
    ensures JobsOf(scripts[..i + 1], pid) == JobsOf(scripts[..i], pid) + [Job(pid + i, scripts[i], 0, |scripts[i]|)]
    ensures Run(m, Preloads(scripts[..i + 1], pid, size))
         == Run(Run(m, Preloads(scripts[..i], pid, size)), PreloadOps(pid + i, |scripts[i]|, size))
  {
    hide Run, PreloadOps;
    assert scripts[..i + 1][..i] == scripts[..i];
    RunConcat(m, Preloads(scripts[..i], pid, size), PreloadOps(pid + i, |scripts[i]|, size));
  }

  lemma JobsOfFacts(c: Command, pid: nat)
    requires Runnable(c)
    ensures WithinFile(JobsOf(c.scripts, pid)) && DistinctPids(JobsOf(c.scripts, pid))
    ensures c.policy == AGING ==> AllUnfinished(JobsOf(c.scripts, pid))
  {
    forall j | j in JobsOf(c.scripts, pid) ensures j.lines in c.scripts && j.pc == 0 {
      var i :| 0 <= i < |c.scripts| && JobsOf(c.scripts, pid)[i] == j;
    }
  }

  /** What a command runs if every file is held whole in memory. */
  function TraceOf(c: Command, pid: nat): seq<Event>
    requires Runnable(c)
  {
    JobsOfFacts(c, pid);
    var jobs := JobsOf(c.scripts, pid);
    match c.policy
    case FCFS => FcfsTrace(jobs)
    case SJF => SjfTrace(jobs)
    case AGING => AgingSchedule(jobs)
  }

  /** All a command asks of the store: code loading, then the page of every line run. */
  function OpsOf(c: Command, pid: nat, size: nat): seq<Op>
    requires Runnable(c) && 1 <= size
  {
    Preloads(c.scripts, pid, size) + Uses(TraceOf(c, pid), size)
  }

  ghost predicate AllRunnable(cs: seq<Command>) {
    forall i :: 0 <= i < |cs| ==> Runnable(cs[i])
  }

  function SessionTrace(cs: seq<Command>, pid: nat): seq<Event>
    requires AllRunnable(cs)
    decreases cs
  {
    if cs == [] then [] else TraceOf(cs[0], pid) + SessionTrace(cs[1..], pid + |cs[0].scripts|)
  }

  function SessionOps(cs: seq<Command>, pid: nat, size: nat): seq<Op>
    requires AllRunnable(cs) && 1 <= size
    decreases cs
  {
    if cs == [] then [] else OpsOf(cs[0], pid, size) + SessionOps(cs[1..], pid + |cs[0].scripts|, size)
  }

  lemma WholeFile(j: Job)
    requires j.pc == 0
    ensures |RestOf(j)| == |j.lines|
    ensures forall l :: 0 <= l < |j.lines| ==> RestOf(j)[l] == Executed(j.pid, l, j.lines[l])
  {
  }

  lemma CommandRunsRest(c: Command, pid: nat, j: Job)
    requires Runnable(c) && j in JobsOf(c.scripts, pid)
    ensures j.pc <= |j.lines| && Project(TraceOf(c, pid), j.pid) == RestOf(j)
  {
    var jobs := JobsOf(c.scripts, pid);
    JobsOfFacts(c, pid);
    SortQueuePermutes(jobs);
    DistinctPermuted(jobs, SortQueue(jobs));
    match c.policy {
      case FCFS => FcfsRunsEveryLineOnce(jobs, j);
      case SJF => FcfsRunsEveryLineOnce(SortQueue(jobs), j);
      case AGING => AgingRunsEveryLineOnce(SortQueue(jobs), j);
    }
  }

  /** Every command runs each line of each of its scripts once, in file order. */
  lemma CommandRunsEveryLineOnce(c: Command, pid: nat, i: nat)
    requires Runnable(c) && i < |c.scripts|
    ensures var own := Project(TraceOf(c, pid), pid + i);
      |own| == |c.scripts[i]| && forall l :: 0 <= l < |own| ==> own[l] == Executed(pid + i, l, c.scripts[i][l])
  {
    hide TraceOf, Project, RestOf;
    var j := JobsOf(c.scripts, pid)[i];
    assert j == Job(pid + i, c.scripts[i], 0, |c.scripts[i]|);
    CommandRunsRest(c, pid, j);
    WholeFile(j);
  }

  /** What round robin starts from: the new processes, and the store with their first pages. */
  function RrStart(m: Paging, trace: seq<Event>, scripts: seq<seq<Line>>, pid: nat, size: nat): System
    requires 1 <= m.cap
  {
    System(JobsOf(scripts, pid), Run(m, Preloads(scripts, pid, size)), trace)
  }

  /** The scripts that outlive their first turn fit into the store. */
  ghost predicate RrStops(m: Paging, trace: seq<Event>, scripts: seq<seq<Line>>, pid: nat, size: nat, slice: nat)
    requires 1 <= m.cap
  {
    var s := RrStart(m, trace, scripts, pid, size);
    Good(s, size, slice) ==> |Survivors(s, size, slice)| <= m.cap
  }

  /** Some number of turns from that start leads to this store and trace, and to an empty
      queue. */
  ghost predicate RrLeadsTo(m: Paging, trace: seq<Event>, scripts: seq<seq<Line>>, pid: nat, size: nat, slice: nat,
                            after: Paging, ran: seq<Event>)
    requires 1 <= m.cap
  {
    var s := RrStart(m, trace, scripts, pid, size);
    Good(s, size, slice) && exists n: nat :: System([], after, ran) == Turns(s, size, slice, n)
  }

  /** One frame for each script is enough, whatever the store holds and however long the
      slice and the scripts are. */
  lemma AFrameEachIsEnough(m: Paging, trace: seq<Event>, scripts: seq<seq<Line>>, pid: nat, size: nat, slice: nat)
    requires 1 <= m.cap && |scripts| <= m.cap
    ensures RrStops(m, trace, scripts, pid, size, slice)
  {
  }

  lemma RrStartGood(m: Paging, trace: seq<Event>, scripts: seq<seq<Line>>, pid: nat, size: nat, slice: nat)
    requires Ok(m) && 1 <= size && 1 <= slice
    ensures Good(RrStart(m, trace, scripts, pid, size), size, slice)
  {
    RunOk(m, Preloads(scripts, pid, size));
  }

  /** For scripts that are all longer than the slice, a frame for each is also necessary. */
  lemma LongScriptsNeedAFrameEach(m: Paging, trace: seq<Event>, scripts: seq<seq<Line>>, pid: nat, size: nat, slice: nat)
    requires Ok(m) && 1 <= size && 1 <= slice && forall f :: f in scripts ==> |f| > slice
    ensures RrStops(m, trace, scripts, pid, size, slice) <==> |scripts| <= m.cap
  {
    var s := RrStart(m, trace, scripts, pid, size);
    RrStartGood(m, trace, scripts, pid, size, slice);
    forall j | j in s.queue ensures |j.lines| - j.pc > slice {
      assert j.lines in scripts;
    }
    hide Survivors, Terminates, JobsOf, Run;
    StopsIffSurvivorsFit(s, size, slice);
    LongFilesNeedAFrameEach(s, size, slice);
  }

  /** A command that never ends: two scripts of three lines on an empty store of one frame. */
  lemma TwoScriptsLivelock(text: Line)
    ensures var file := [text, text, text]; !RrStops(Empty(1), [], [file, file], 1, 3, 2)
  {
    var file := [text, text, text];
    LongScriptsNeedAFrameEach(Empty(1), [], [file, file], 1, 3, 2);
  }

  lemma LoadedJobs(scripts: seq<seq<Line>>, pid: nat)
    ensures WithinFile(JobsOf(scripts, pid))
  {
  }

  /** After round robin the new events of each script are its lines, once each and in order. */
  lemma RanWhole(scripts: seq<seq<Line>>, pid: nat, before: seq<Event>, after: seq<Event>, i: nat)
    returns (own: seq<Event>)
    requires RanAll(JobsOf(scripts, pid), before, after) && i < |scripts|
    ensures Project(after, pid + i) == Project(before, pid + i) + own
    ensures |own| == |scripts[i]| && forall l :: 0 <= l < |own| ==> own[l] == Executed(pid + i, l, scripts[i][l])
  {
    hide Project, RestOf, JobsOf, RanAll;
    var j := Job(pid + i, scripts[i], 0, |scripts[i]|);
    JobIsThere(scripts, pid, i);
    RanOne(JobsOf(scripts, pid), before, after, j);
    own := RestOf(j);
    WholeFile(j);
  }

  lemma JobIsThere(scripts: seq<seq<Line>>, pid: nat, i: nat)
    requires i < |scripts|
    ensures Job(pid + i, scripts[i], 0, |scripts[i]|) in JobsOf(scripts, pid)
  {
    assert JobsOf(scripts, pid)[i] == Job(pid + i, scripts[i], 0, |scripts[i]|);
  }

  lemma RanOne(jobs: seq<Job>, before: seq<Event>, after: seq<Event>, j: Job)
    requires RanAll(jobs, before, after) && j in jobs
    ensures j.pc <= |j.lines| && Project(after, j.pid) == Project(before, j.pid) + RestOf(j)
  {
  }

  /** The shell: a scheduler, and the next process number of src/scheduling/pcb.c. */
  class Shell {
    const scheduler: Scheduler
    var nextPid: nat

    ghost predicate Idle()
      reads this, scheduler.queue, Members(scheduler.queue.contents)`next
      reads scheduler.mem, scheduler.mem.fstore.memory, scheduler.mem.fstore.frameTable
      reads scheduler.mem.lru, scheduler.mem.lru.repr, scheduler.mem.procs`pageTable
    {
      && scheduler.Valid() && scheduler.queue.contents == []
      && forall p :: p in scheduler.mem.procs ==> p.pid < nextPid
    }

    constructor (storeSize: nat, frameSize: nat)
      requires 1 <= frameSize <= storeSize
      ensures Idle() && fresh(scheduler) && fresh(scheduler.Objects()) && nextPid == 1
      ensures scheduler.trace == [] && scheduler.Size() == frameSize
      ensures scheduler.Paged() == Empty(storeSize / frameSize)
    {
      scheduler := new Scheduler(storeSize, frameSize);
      nextPid := 1;
    }

    /** build_ready_queue for scripts with different names. */
    method BuildReadyQueue(scripts: seq<seq<Line>>)
      requires Idle() && forall f :: f in scripts ==> |f| <= MAX_FILE_SIZE
      modifies this, scheduler.queue, scheduler.mem, scheduler.mem.fstore.memory, scheduler.mem.fstore.frameTable
      modifies scheduler.mem.lru`nodes, scheduler.mem.lru.repr
      ensures scheduler.Valid() && nextPid == old(nextPid) + |scripts|
      ensures Shows(scheduler.queue.contents, JobsOf(scripts, old(nextPid)))
      ensures fresh(scheduler.mem.procs - old(scheduler.mem.procs))
      ensures scheduler.Paged() == Run(old(scheduler.Paged()), Preloads(scripts, old(nextPid), scheduler.Size()))
      ensures forall p :: p in scheduler.mem.procs ==> p.pid < nextPid
    {
      hide Memory.Valid, Memory.Pages, Run, PreloadOps, JobsOf, Preloads, Shows;
      ghost var pid, start := nextPid, scheduler.Paged();
      NoScripts(start, pid, scheduler.Size());
      NoneShown();
      for i := 0 to |scripts|
        invariant scheduler.Valid() && nextPid == pid + i
        invariant Shows(scheduler.queue.contents, JobsOf(scripts[..i], pid))
        invariant fresh(scheduler.mem.procs - old(scheduler.mem.procs))
        invariant forall p :: p in scheduler.queue.contents ==> fresh(p)
        invariant scheduler.Paged() == Run(start, Preloads(scripts[..i], pid, scheduler.Size()))
        invariant forall p :: p in scheduler.mem.procs ==> p.pid < nextPid
      {
        assert forall p :: p in scheduler.queue.Last() ==> p in scheduler.queue.contents;
        AddProcess(scripts[i], JobsOf(scripts[..i], pid));
        OneMoreScript(start, scripts, i, pid, scheduler.Size());
      }
      assert scripts[..|scripts|] == scripts;
    }

    /** One round of build_ready_queue: pcb_init and append_process. */
    method AddProcess(script: seq<Line>, ghost jobs: seq<Job>)
      requires scheduler.Valid() && |script| <= MAX_FILE_SIZE && Shows(scheduler.queue.contents, jobs)
      requires forall p :: p in scheduler.mem.procs ==> p.pid < nextPid
      modifies this, scheduler.queue, scheduler.queue.Last()`next
      modifies scheduler.mem, scheduler.mem.fstore.memory, scheduler.mem.fstore.frameTable
      modifies scheduler.mem.lru`nodes, scheduler.mem.lru.repr
      ensures scheduler.Valid() && nextPid == old(nextPid) + 1
      ensures Shows(scheduler.queue.contents, jobs + [Job(old(nextPid), script, 0, |script|)])
      ensures fresh(scheduler.mem.procs - old(scheduler.mem.procs))
      ensures forall p :: p in scheduler.queue.contents ==> p in old(scheduler.queue.contents) || fresh(p)
      ensures scheduler.Paged() == Run(old(scheduler.Paged()), PreloadOps(old(nextPid), |script|, scheduler.Size()))
      ensures forall p :: p in scheduler.mem.procs ==> p.pid < nextPid
    {
      hide Memory.Valid, Memory.Pages, Run, PreloadOps, Shows;
      var pcb := NewProcess(script, jobs);
      nextPid := nextPid + 1;
      scheduler.AppendShown(pcb, jobs);
    }

    /** pcb_init, seen from the shell: the queue is as before. */
    method NewProcess(script: seq<Line>, ghost jobs: seq<Job>) returns (pcb: PCB)
      requires scheduler.Valid() && |script| <= MAX_FILE_SIZE && Shows(scheduler.queue.contents, jobs)
      requires forall p :: p in scheduler.mem.procs ==> p.pid < nextPid
      modifies scheduler.mem, scheduler.mem.fstore.memory, scheduler.mem.fstore.frameTable
      modifies scheduler.mem.lru`nodes, scheduler.mem.lru.repr
      ensures scheduler.Valid() && Shows(scheduler.queue.contents, jobs)
      ensures scheduler.mem.procs == old(scheduler.mem.procs) + {pcb} && fresh(pcb)
      ensures pcb.View() == Job(nextPid, script, 0, |script|) && pcb.next == null
      ensures scheduler.Paged() == Run(old(scheduler.Paged()), PreloadOps(nextPid, |script|, scheduler.Size()))
    {
      hide Memory.Valid, Memory.Pages, Run, PreloadOps;
      pcb := PcbInit(scheduler.mem, nextPid, script, scheduler.faults);
    }

    /** exec: loads the scripts and runs the policy until the queue is empty. */
    method Exec(c: Command)
      requires Idle() && Runnable(c)
      modifies this, scheduler`trace, scheduler`faults, scheduler.queue
      modifies scheduler.mem, scheduler.mem.fstore.memory, scheduler.mem.fstore.frameTable
      modifies scheduler.mem.lru`nodes, scheduler.mem.lru.repr, scheduler.mem.procs
      ensures Idle() && nextPid == old(nextPid) + |c.scripts|
      ensures fresh(scheduler.mem.procs - old(scheduler.mem.procs))
      ensures scheduler.trace == old(scheduler.trace) + TraceOf(c, old(nextPid))
      ensures scheduler.Paged() == Run(old(scheduler.Paged()), OpsOf(c, old(nextPid), scheduler.Size()))
    {
      hide Memory.Valid, Memory.Pages, ReadyQueue.Valid, Shows, Run, Uses, TraceOf, Preloads, JobsOf;
      ghost var pid, size := nextPid, scheduler.Size();
      RunConcat(scheduler.Paged(), Preloads(c.scripts, pid, size), Uses(TraceOf(c, pid), size));
      BuildReadyQueue(c.scripts);
      RunPolicy(c, pid);
    }

    /** The dispatch on the policy. */
    method RunPolicy(c: Command, ghost pid: nat)
      requires scheduler.Valid() && Runnable(c) && Shows(scheduler.queue.contents, JobsOf(c.scripts, pid))
      modifies scheduler`trace, scheduler`faults, scheduler.queue
      modifies scheduler.mem`used, scheduler.mem.fstore.memory, scheduler.mem.fstore.frameTable
      modifies scheduler.mem.lru`nodes, scheduler.mem.lru.repr, scheduler.mem.procs
      ensures scheduler.Valid() && scheduler.queue.contents == []
      ensures scheduler.trace == old(scheduler.trace) + TraceOf(c, pid)
      ensures scheduler.Paged() == Run(old(scheduler.Paged()), Uses(TraceOf(c, pid), scheduler.Size()))
    {
      hide Memory.Valid, Memory.Pages, Run, Uses, FcfsTrace, AgingTrace, JobSort.SortQueue;
      JobsOfFacts(c, pid);
      ShowsViews(scheduler.queue.contents, JobsOf(c.scripts, pid));
      match c.policy {
        case FCFS => scheduler.Fcfs();
        case SJF => scheduler.Sjf();
        case AGING => scheduler.Aging();
      }
    }

    /** exec with the policies RR and RR30, which differ in the time slice. It loads the scripts
        and stops when at most as many of them outlive their first turn as there are frames;
        then turns of the ready queue have been taken until it was empty, so that every line of
        every script has been run once, in file order, and nothing else. */
    method ExecRr(scripts: seq<seq<Line>>, timeSlice: nat)
      requires Idle() && Loadable(scripts) && 1 <= timeSlice
      requires RrStops(scheduler.Paged(), scheduler.trace, scripts, nextPid, scheduler.Size(), timeSlice)
      modifies this, scheduler`trace, scheduler`faults, scheduler.queue
      modifies scheduler.mem, scheduler.mem.fstore.memory, scheduler.mem.fstore.frameTable
      modifies scheduler.mem.lru`nodes, scheduler.mem.lru.repr, scheduler.mem.procs
      ensures Idle() && nextPid == old(nextPid) + |scripts|
      ensures fresh(scheduler.mem.procs - old(scheduler.mem.procs))
      ensures RrLeadsTo(old(scheduler.Paged()), old(scheduler.trace), scripts, old(nextPid), scheduler.Size(), timeSlice,
                        scheduler.Paged(), scheduler.trace)
      ensures RanAll(JobsOf(scripts, old(nextPid)), old(scheduler.trace), scheduler.trace)
    {
      hide Memory.Valid, Memory.Pages, Run, RanAll, Shows, Survivors, JobsOf, Good, Turns, Preloads;
      ghost var pid, jobs := nextPid, JobsOf(scripts, nextPid);
      LoadedJobs(scripts, pid);
      BuildReadyQueue(scripts);
      scheduler.JobsGood(timeSlice, jobs);
      scheduler.Rr(timeSlice, jobs);
    }

    /** A whole session. For every store and frame size it runs what an ideal machine runs,
        and its faults are those of the session's page uses. */
    method RunSession(cs: seq<Command>)
      requires Idle() && AllRunnable(cs)
      modifies this, scheduler`trace, scheduler`faults, scheduler.queue
      modifies scheduler.mem, scheduler.mem.fstore.memory, scheduler.mem.fstore.frameTable
      modifies scheduler.mem.lru`nodes, scheduler.mem.lru.repr, scheduler.mem.procs
      ensures Idle()
      ensures scheduler.trace == old(scheduler.trace) + SessionTrace(cs, old(nextPid))
      ensures scheduler.Paged() == Run(old(scheduler.Paged()), SessionOps(cs, old(nextPid), scheduler.Size()))
    {
      hide Memory.Valid, Memory.Pages, Run, TraceOf, OpsOf;
      ghost var goal := SessionGoal(scheduler.Paged(), scheduler.trace, cs, nextPid, scheduler.Size());
      ghost var left := cs;
      for i := 0 to |cs|
        invariant Idle() && left == cs[i..] && AllRunnable(left)
        invariant fresh(scheduler.mem.procs - old(scheduler.mem.procs))
        invariant SessionGoal(scheduler.Paged(), scheduler.trace, left, nextPid, scheduler.Size()) == goal
      {
        SessionStep(scheduler.Paged(), scheduler.trace, left, nextPid, scheduler.Size());
        Exec(cs[i]);
        left := left[1..];
      }
      SessionOver(scheduler.Paged(), scheduler.trace, nextPid, scheduler.Size());
    }
  }

  /** The store and trace that the session `cs` leads to. */
  function SessionGoal(m: Paging, trace: seq<Event>, cs: seq<Command>, pid: nat, size: nat): Goal
    requires 1 <= m.cap && 1 <= size && AllRunnable(cs)
  {
    Goal(Run(m, SessionOps(cs, pid, size)), trace + SessionTrace(cs, pid))
  }

  lemma SessionStep(m: Paging, trace: seq<Event>, cs: seq<Command>, pid: nat, size: nat)
    requires 1 <= m.cap && 1 <= size && AllRunnable(cs) && cs != []
    ensures AllRunnable(cs[1..])
    ensures SessionGoal(Run(m, OpsOf(cs[0], pid, size)), trace + TraceOf(cs[0], pid), cs[1..], pid + |cs[0].scripts|, size)
         == SessionGoal(m, trace, cs, pid, size)
  {
    RunConcat(m, OpsOf(cs[0], pid, size), SessionOps(cs[1..], pid + |cs[0].scripts|, size));
  }

  lemma SessionOver(m: Paging, trace: seq<Event>, pid: nat, size: nat)
    requires 1 <= m.cap && 1 <= size
    ensures SessionGoal(m, trace, [], pid, size) == Goal(m, trace)
  {
  }

  /** For whole sessions under FCFS, SJF and AGING a larger store never faults more. */
  lemma MoreMemoryNeverHurts(cs: seq<Command>, frameSize: nat, store: nat, larger: nat)
    requires AllRunnable(cs) && 1 <= frameSize <= store <= larger
    ensures 1 <= store / frameSize <= larger / frameSize
    ensures Run(Empty(larger / frameSize), SessionOps(cs, 1, frameSize)).faults
         <= Run(Empty(store / frameSize), SessionOps(cs, 1, frameSize)).faults
  {
    Division.Monotonic(frameSize, store, frameSize);
    Division.Monotonic(store, larger, frameSize);
    MoreFramesNeverHurt(store / frameSize, larger / frameSize, SessionOps(cs, 1, frameSize));
  }
}
