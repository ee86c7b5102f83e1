/** In which order the scripts of a command, and the commands of a session, are run. */
module CommandOrder {
  import opened Jobs
  import opened JobSort
  import opened IdealSchedules
  import opened ScheduleOrder
  import opened Sessions

  /** The process of script `a`. */
  lemma ScriptJob(c: Command, pid: nat, a: nat)
    requires Runnable(c) && a < |c.scripts|
    ensures JobsOf(c.scripts, pid)[a] == Job(pid + a, c.scripts[a], 0, |c.scripts[a]|)
    ensures JobsOf(c.scripts, pid)[a] in JobsOf(c.scripts, pid)
  {
  }

  /** FCFS runs the scripts in the order in which they were given. */
  lemma FcfsInOrderOfScripts(c: Command, pid: nat, i: nat, k: nat, a: nat, b: nat)
    requires Runnable(c) && c.policy == FCFS && i <= k < |TraceOf(c, pid)| && a < |c.scripts| && b < |c.scripts|
    requires TraceOf(c, pid)[i].pid == pid + a && TraceOf(c, pid)[k].pid == pid + b
    ensures a <= b
  {
    hide JobsOf, FcfsTrace;
    JobsOfFacts(c, pid);
    ScriptJob(c, pid, a);
    ScriptJob(c, pid, b);
    FcfsInOrder(JobsOf(c.scripts, pid), i, k, a, b);
  }

  /** SJF runs a shorter script to its end before it runs any line of a longer one. */
  lemma SjfShortScriptsFirst(c: Command, pid: nat, i: nat, k: nat, a: nat, b: nat)
    requires Runnable(c) && c.policy == SJF && i <= k < |TraceOf(c, pid)| && a < |c.scripts| && b < |c.scripts|
    requires TraceOf(c, pid)[i].pid == pid + a && TraceOf(c, pid)[k].pid == pid + b
    ensures |c.scripts[a]| <= |c.scripts[b]|
    ensures a == b ==> forall l :: i <= l <= k ==> TraceOf(c, pid)[l].pid == pid + a
  {
    hide JobsOf, SjfTrace;
    JobsOfFacts(c, pid);
    ScriptJob(c, pid, a);
    ScriptJob(c, pid, b);
    var jobs := JobsOf(c.scripts, pid);
    SjfShortestFirst(jobs, i, k, jobs[a], jobs[b]);
    if a == b {
      forall l | i <= l <= k ensures TraceOf(c, pid)[l].pid == pid + a {
        SjfUninterrupted(jobs, i, l, k);
      }
    }
  }

  /** AGING runs at each dispatch a script whose length, lowered by its waiting, is least
      among the scripts that still have lines to run. */
  lemma AgingLeastScriptRuns(c: Command, pid: nat, i: nat, k: nat, a: nat, b: nat)
    requires Runnable(c) && c.policy == AGING && i <= k < |TraceOf(c, pid)| && a < |c.scripts| && b < |c.scripts|
    requires TraceOf(c, pid)[i].pid == pid + a && TraceOf(c, pid)[k].pid == pid + b
    ensures var jobs, before := JobsOf(c.scripts, pid), TraceOf(c, pid)[..i];
      Lowered(|c.scripts[a]|, Waits(jobs, before, pid + a)) <= Lowered(|c.scripts[b]|, Waits(jobs, before, pid + b))
  {
    hide JobsOf, AgingSchedule, Lowered, Waits;
    JobsOfFacts(c, pid);
    ScriptJob(c, pid, a);
    ScriptJob(c, pid, b);
    var jobs := JobsOf(c.scripts, pid);
    AgingRunsLeast(jobs, i, k, jobs[a], jobs[b]);
  }

  /** So it starts with the first line of a shortest script. */
  lemma AgingShortestScriptStarts(c: Command, pid: nat) returns (a: nat)
    requires Runnable(c) && c.policy == AGING && c.scripts != []
    ensures a < |c.scripts| && c.scripts[a] != [] && forall b :: 0 <= b < |c.scripts| ==> |c.scripts[a]| <= |c.scripts[b]|
    ensures TraceOf(c, pid) != [] && TraceOf(c, pid)[0] == Executed(pid + a, 0, c.scripts[a][0])
  {
    hide AgingSchedule;
    JobsOfFacts(c, pid);
    var jobs := JobsOf(c.scripts, pid);
    var j := AgingStartsShortest(jobs);
    a :| 0 <= a < |jobs| && jobs[a] == j;
    forall b | 0 <= b < |c.scripts| ensures |c.scripts[a]| <= |c.scripts[b]| {
      assert jobs[b] in jobs;
    }
  }

  // ----- Sessions

  /** How many processes the commands start. */
  function Scripts(cs: seq<Command>): nat
    decreases cs
  {
    if cs == [] then 0 else |cs[0].scripts| + Scripts(cs[1..])
  }

  /** A session is its commands one after the other, each with the next free process numbers;
      the page uses of a command follow its code loading. */
  ghost predicate SplitsAt(cs: seq<Command>, k: nat, pid: nat, size: nat)
    requires AllRunnable(cs) && k < |cs| && 1 <= size
  {
    var own, after := pid + Scripts(cs[..k]), pid + Scripts(cs[..k]) + |cs[k].scripts|;
    && SessionTrace(cs, pid) == SessionTrace(cs[..k], pid) + TraceOf(cs[k], own) + SessionTrace(cs[k + 1..], after)
    && SessionOps(cs, pid, size) == SessionOps(cs[..k], pid, size) + OpsOf(cs[k], own, size)
                                    + SessionOps(cs[k + 1..], after, size)
  }

  lemma {:induction false} SessionSplit(cs: seq<Command>, k: nat, pid: nat, size: nat)
    requires AllRunnable(cs) && k < |cs| && 1 <= size
    ensures SplitsAt(cs, k, pid, size)
    decreases k
  {
    hide *;
    if k > 0 {
      FirstCommand(cs, pid, size);
      SessionSplit(cs[1..], k - 1, pid + |cs[0].scripts|, size);
      SplitsLater(cs, k, pid, size);
    } else {
      SplitsFirst(cs, pid, size);
    }
  }

  lemma SplitsFirst(cs: seq<Command>, pid: nat, size: nat)
    requires AllRunnable(cs) && cs != [] && 1 <= size
    ensures SplitsAt(cs, 0, pid, size)
  {
    hide TraceOf, OpsOf, Runnable, SessionTrace, SessionOps;
    FirstCommand(cs, pid, size);
    NoCommand(cs, pid, size);
  }

  lemma SplitsLater(cs: seq<Command>, k: nat, pid: nat, size: nat)
    requires AllRunnable(cs) && 0 < k < |cs| && 1 <= size
    requires AllRunnable(cs[1..]) && SplitsAt(cs[1..], k - 1, pid + |cs[0].scripts|, size)
    ensures SplitsAt(cs, k, pid, size)
  {
    hide TraceOf, OpsOf, Runnable, SessionTrace, SessionOps, Scripts;
    var t := cs[1..];
    assert cs[..k][1..] == t[..k - 1] && cs[k + 1..] == t[k..] && cs[k] == t[k - 1];
    FirstCommand(cs, pid, size);
    FirstCommand(cs[..k], pid, size);
    var own := pid + Scripts(cs[..k]);
    var after := own + |cs[k].scripts|;
    Associate4(TraceOf(cs[0], pid), SessionTrace(t[..k - 1], pid + |cs[0].scripts|), TraceOf(cs[k], own),
               SessionTrace(cs[k + 1..], after));
    Associate4(OpsOf(cs[0], pid, size), SessionOps(t[..k - 1], pid + |cs[0].scripts|, size), OpsOf(cs[k], own, size),
               SessionOps(cs[k + 1..], after, size));
  }

  lemma FirstCommand(cs: seq<Command>, pid: nat, size: nat)
    requires AllRunnable(cs) && cs != [] && 1 <= size
    ensures AllRunnable(cs[1..]) && Runnable(cs[0])
    ensures Scripts(cs) == |cs[0].scripts| + Scripts(cs[1..])
    ensures SessionTrace(cs, pid) == TraceOf(cs[0], pid) + SessionTrace(cs[1..], pid + |cs[0].scripts|)
    ensures SessionOps(cs, pid, size) == OpsOf(cs[0], pid, size) + SessionOps(cs[1..], pid + |cs[0].scripts|, size)
  {
  }

  lemma NoCommand(cs: seq<Command>, pid: nat, size: nat)
    requires 1 <= size
    ensures AllRunnable(cs[..0]) && Scripts(cs[..0]) == 0
    ensures SessionTrace(cs[..0], pid) == [] && SessionOps(cs[..0], pid, size) == []
  {
  }

  lemma Associate4<T>(a: seq<T>, b: seq<T>, c: seq<T>, d: seq<T>)
    ensures a + (b + c + d) == (a + b) + c + d
  {
  }

  /** The script that event `i` belongs to. */
  lemma ScriptOf(c: Command, pid: nat, i: nat) returns (a: nat)
    requires Runnable(c) && i < |TraceOf(c, pid)|
    ensures a < |c.scripts| && TraceOf(c, pid)[i].pid == pid + a
  {
    hide JobsOf, SjfTrace, FcfsTrace, AgingSchedule, SortQueue;
    JobsOfFacts(c, pid);
    var jobs := JobsOf(c.scripts, pid);
    var j := EventJob(c, pid, i);
    a :| 0 <= a < |jobs| && jobs[a] == j;
    ScriptJob(c, pid, a);
  }

  lemma EventJob(c: Command, pid: nat, i: nat) returns (j: Job)
    requires Runnable(c) && i < |TraceOf(c, pid)|
    ensures j in JobsOf(c.scripts, pid) && j.pid == TraceOf(c, pid)[i].pid
  {
    hide JobsOf, FcfsTrace, AgingTrace, AgingIter, SortQueue;
    JobsOfFacts(c, pid);
    var jobs := JobsOf(c.scripts, pid);
    match c.policy {
      case FCFS =>
        var x, _ := FcfsPlaces(jobs, i, i);
        j := jobs[x];
      case SJF =>
        SjfQueue(jobs);
        var x, _ := FcfsPlaces(SortQueue(jobs), i, i);
        j := SortQueue(jobs)[x];
      case AGING =>
        AgingQueue(jobs);
        AgingEvent(SortQueue(jobs), i);
        j := IterFrom(SortQueue(jobs), i, AgingIter(SortQueue(jobs), i)[0]);
    }
  }

  /** The commands of a session run nothing but their own processes. */
  lemma {:induction false} SessionPids(cs: seq<Command>, pid: nat)
    requires AllRunnable(cs)
    ensures forall e :: e in SessionTrace(cs, pid) ==> pid <= e.pid < pid + Scripts(cs)
    decreases cs
  {
    hide TraceOf, Runnable;
    if cs != [] {
      var own := TraceOf(cs[0], pid);
      SessionPids(cs[1..], pid + |cs[0].scripts|);
      forall e | e in own ensures pid <= e.pid < pid + |cs[0].scripts| {
        var i :| 0 <= i < |own| && own[i] == e;
        var a := ScriptOf(cs[0], pid, i);
      }
    }
  }

  /** A session runs each line of each script of each of its commands once, in file order. */
  lemma SessionRunsEveryLineOnce(cs: seq<Command>, pid: nat, k: nat, i: nat)
    requires AllRunnable(cs) && k < |cs| && i < |cs[k].scripts|
    ensures var own := Project(SessionTrace(cs, pid), pid + Scripts(cs[..k]) + i); var file := cs[k].scripts[i];
      |own| == |file| && forall l :: 0 <= l < |own| ==> own[l] == Executed(pid + Scripts(cs[..k]) + i, l, file[l])
  {
    hide TraceOf, OpsOf, SessionTrace, SessionOps, Scripts, Project, Runnable;
    SessionSplit(cs, k, pid, 1);
    var first := pid + Scripts(cs[..k]);
    var before, own := SessionTrace(cs[..k], pid), TraceOf(cs[k], first);
    var after := SessionTrace(cs[k + 1..], first + |cs[k].scripts|);
    SessionPids(cs[..k], pid);
    SessionPids(cs[k + 1..], first + |cs[k].scripts|);
    ProjectOther(before, first + i);
    ProjectOther(after, first + i);
    ProjectConcat(before + own, after, first + i);
    ProjectConcat(before, own, first + i);
    CommandRunsEveryLineOnce(cs[k], first, i);
    assert [] + Project(own, first + i) + [] == Project(own, first + i);
  }
}
