/** In which order FCFS, SJF and AGING run the lines of different processes. */
module ScheduleOrder {
  import opened Jobs
  import opened JobSort
  import opened IdealSchedules

  // ----- FCFS and SJF: one file after the other

  lemma RestOfPid(j: Job, i: nat)
    requires j.pc <= |j.lines| && i < |RestOf(j)|
    ensures RestOf(j)[i].pid == j.pid
  {
  }

  /** The places in the queue of the processes that run events `i` and `k`: they never
      decrease along the trace. */
  lemma {:induction false} FcfsPlaces(q: seq<Job>, i: nat, k: nat) returns (a: nat, b: nat)
    requires WithinFile(q) && i <= k < |FcfsTrace(q)|
    ensures a <= b < |q| && FcfsTrace(q)[i].pid == q[a].pid && FcfsTrace(q)[k].pid == q[b].pid
    decreases q
  {
    hide RestOf;
    var n := |RestOf(q[0])|;
    if k < n {
      RestOfPid(q[0], i);
      RestOfPid(q[0], k);
      a, b := 0, 0;
    } else if i < n {
      RestOfPid(q[0], i);
      var _, d := FcfsPlaces(q[1..], k - n, k - n);
      a, b := 0, d + 1;
    } else {
      a, b := FcfsPlaces(q[1..], i - n, k - n);
      a, b := a + 1, b + 1;
    }
  }

  /** Nobody runs between two lines of one process. */
  lemma FcfsUninterrupted(q: seq<Job>, i: nat, k: nat, l: nat)
    requires WithinFile(q) && DistinctPids(q) && i <= k <= l < |FcfsTrace(q)|
    requires FcfsTrace(q)[i].pid == FcfsTrace(q)[l].pid
    ensures FcfsTrace(q)[k].pid == FcfsTrace(q)[i].pid
  {
    hide FcfsTrace;
    var a, b := FcfsPlaces(q, i, k);
    var c, d := FcfsPlaces(q, k, l);
  }

  /** FCFS runs the files in the order of the queue. */
  lemma FcfsInOrder(q: seq<Job>, i: nat, k: nat, a: nat, b: nat)
    requires WithinFile(q) && DistinctPids(q) && i <= k < |FcfsTrace(q)| && a < |q| && b < |q|
    requires FcfsTrace(q)[i].pid == q[a].pid && FcfsTrace(q)[k].pid == q[b].pid
    ensures a <= b
  {
    hide FcfsTrace;
    var c, d := FcfsPlaces(q, i, k);
  }

  lemma SjfQueue(q: seq<Job>)
    requires WithinFile(q) && DistinctPids(q)
    ensures WithinFile(SortQueue(q)) && DistinctPids(SortQueue(q)) && SjfTrace(q) == FcfsTrace(SortQueue(q))
    ensures forall j :: j in SortQueue(q) <==> j in q
  {
    SortQueuePermutes(q);
    DistinctPermuted(q, SortQueue(q));
  }

  lemma SamePid(q: seq<Job>, a: Job, b: Job)
    requires DistinctPids(q) && a in q && b in q && a.pid == b.pid
    ensures a == b
  {
  }

  /** SJF runs no line of a process before all processes of lower score are done. */
  lemma SjfShortestFirst(q: seq<Job>, i: nat, k: nat, a: Job, b: Job)
    requires |q| <= MAX_NUM_PROGRAMS && WithinFile(q) && DistinctPids(q) && i <= k < |SjfTrace(q)|
    requires a in q && b in q && SjfTrace(q)[i].pid == a.pid && SjfTrace(q)[k].pid == b.pid
    ensures a.score <= b.score
  {
    hide FcfsTrace, SortQueue, SjfTrace;
    SjfQueue(q);
    SortQueueSorts(q);
    var s := SortQueue(q);
    var x, y := FcfsPlaces(s, i, k);
    SamePid(s, s[x], a);
    SamePid(s, s[y], b);
  }

  /** And once a file is begun, nobody else runs before its end. */
  lemma SjfUninterrupted(q: seq<Job>, i: nat, k: nat, l: nat)
    requires WithinFile(q) && DistinctPids(q) && i <= k <= l < |SjfTrace(q)|
    requires SjfTrace(q)[i].pid == SjfTrace(q)[l].pid
    ensures SjfTrace(q)[k].pid == SjfTrace(q)[i].pid
  {
    SjfQueue(q);
    FcfsUninterrupted(SortQueue(q), i, k, l);
  }

  // ----- AGING: which process a dispatch runs

  /** Event `k` is the dispatch of the head of the queue that `k` dispatches have left. */
  lemma {:induction false} AgingEvent(q: seq<Job>, k: nat)
    requires AllUnfinished(q)
    ensures |AgingTrace(q)| == Remaining(q)
    ensures AllUnfinished(AgingIter(q, k))
    ensures k < |AgingTrace(q)| ==> AgingIter(q, k) != [] && Unfinished(AgingIter(q, k)[0])
                                    && AgingTrace(q)[k] == Current(AgingIter(q, k)[0])
    decreases k, Remaining(q)
  {
    hide AgingNext;
    if q != [] {
      AgingNextRuns(q);
      assert q[0] in q;
      AgingEvent(AgingNext(q), if k > 0 then k - 1 else 0);
    }
  }

  /** A dispatch after which its process is still there, so that the others are aged. */
  predicate Ages(q: seq<Job>, e: Event) {
    exists j :: j in q && j.pid == e.pid && e.line + 1 < |j.lines|
  }

  /** How often a process has been aged in the course of a trace. */
  function Waits(q: seq<Job>, trace: seq<Event>, pid: nat): nat
    decreases trace
  {
    if trace == [] then 0
    else (if trace[0].pid != pid && Ages(q, trace[0]) then 1 else 0) + Waits(q, trace[1..], pid)
  }

  /** A score that has been lowered `n` times, but not below 0. */
  function Lowered(score: int, n: nat): int {
    if score <= 0 then score else if score <= n then 0 else score - n
  }

  /** The processes of `q` are among those of `all`. */
  ghost predicate Among(q: seq<Job>, all: seq<Job>) {
    forall j :: j in q ==> exists k :: k in all && k.pid == j.pid && k.lines == j.lines
  }

  lemma AgesIff(all: seq<Job>, q: seq<Job>)
    requires DistinctPids(all) && Among(q, all) && q != [] && AllUnfinished(q)
    ensures Unfinished(q[0]) && (Ages(all, Current(q[0])) <==> Unfinished(Advance(q[0])))
  {
    assert q[0] in q;
    var k :| k in all && k.pid == q[0].pid && k.lines == q[0].lines;
    if Ages(all, Current(q[0])) {
      var j :| j in all && j.pid == q[0].pid && q[0].pc + 1 < |j.lines|;
      SamePid(all, j, k);
    }
  }

  /** Where a process of the next queue comes from, and what its score was. */
  lemma NextFrom(q: seq<Job>, w: Job) returns (j: Job)
    requires q != [] && DistinctPids(q) && w in AgingNext(q)
    ensures j in q && j.pid == w.pid && j.lines == w.lines
    ensures w.score == if j.pid != q[0].pid && Unfinished(Advance(q[0])) then AgedScore(j.score) else j.score
  {
    hide SortQueue;
    if Unfinished(Advance(q[0])) {
      var aged := [Advance(q[0])] + AgeQueue(q[1..]);
      SortQueuePermutes(aged);
      var i :| 0 <= i < |aged| && aged[i] == w;
      j := q[i];
    } else {
      j := w;
    }
  }

  lemma NextAmong(q: seq<Job>, all: seq<Job>)
    requires q != [] && DistinctPids(q) && Among(q, all)
    ensures Among(AgingNext(q), all)
  {
    hide AgingNext;
    forall w | w in AgingNext(q) ensures exists k :: k in all && k.pid == w.pid && k.lines == w.lines {
      var j := NextFrom(q, w);
    }
  }

  lemma WaitsMore(all: seq<Job>, e: Event, t: seq<Event>, n: nat, pid: nat)
    requires 0 < n <= |t| + 1
    ensures Waits(all, ([e] + t)[..n], pid)
         == (if e.pid != pid && Ages(all, e) then 1 else 0) + Waits(all, t[..n - 1], pid)
  {
    assert ([e] + t)[..n][1..] == t[..n - 1];
  }

  lemma AgingTraceStep(q: seq<Job>)
    requires q != [] && AllUnfinished(q)
    ensures AllUnfinished(AgingNext(q)) && AgingTrace(q) == [Current(q[0])] + AgingTrace(AgingNext(q))
  {
    AgingNextRuns(q);
  }

  /** What is left of the queue after `n` dispatches, and with which scores. */
  lemma {:induction false} AgingScores(all: seq<Job>, q: seq<Job>, n: nat, w: Job) returns (j: Job)
    requires AllUnfinished(q) && DistinctPids(q) && DistinctPids(all) && Among(q, all)
    requires n <= |AgingTrace(q)| && w in AgingIter(q, n)
    ensures j in q && j.pid == w.pid && j.lines == w.lines
    ensures w.score == Lowered(j.score, Waits(all, AgingTrace(q)[..n], w.pid))
    decreases n
  {
    hide AgingNext, AgingTrace, AgingIter, Waits, Ages, Among;
    if n == 0 {
      AgingIterNone(q);
      NoWaits(all, AgingTrace(q), w.pid);
      j := w;
    } else {
      SomeLeft(q, n);
      AgingTraceStep(q);
      AgingIterMore(q, n);
      AgingNextDistinct(q);
      NextAmong(q, all);
      AgesIff(all, q);
      var k := AgingScores(all, AgingNext(q), n - 1, w);
      WaitsMore(all, Current(q[0]), AgingTrace(AgingNext(q)), n, w.pid);
      j := NextFrom(q, k);
    }
  }

  lemma NoWaits(all: seq<Job>, trace: seq<Event>, pid: nat)
    ensures Waits(all, trace[..0], pid) == 0
  {
  }

  lemma SomeLeft(q: seq<Job>, n: nat)
    requires AllUnfinished(q) && 0 < n <= |AgingTrace(q)|
    ensures q != []
  {
  }

  /** Dispatches bring no new process into the queue. */
  lemma {:induction false} IterFrom(q: seq<Job>, n: nat, w: Job) returns (j: Job)
    requires AllUnfinished(q) && DistinctPids(q) && w in AgingIter(q, n)
    ensures j in q && j.pid == w.pid
    decreases n
  {
    hide AgingNext;
    if n == 0 || q == [] {
      j := w;
    } else {
      AgingNextRuns(q);
      AgingNextDistinct(q);
      var k := IterFrom(AgingNext(q), n - 1, w);
      j := NextFrom(q, k);
    }
  }

  /** The queue that AGING starts from. */
  lemma AgingQueue(q: seq<Job>)
    requires AllUnfinished(q) && DistinctPids(q)
    ensures AllUnfinished(SortQueue(q)) && DistinctPids(SortQueue(q)) && Among(SortQueue(q), q)
    ensures AgingSchedule(q) == AgingTrace(SortQueue(q)) && Remaining(SortQueue(q)) == Remaining(q)
    ensures forall j :: j in SortQueue(q) <==> j in q
  {
    hide SortQueue;
    SortQueuePermutes(q);
    DistinctPermuted(q, SortQueue(q));
    RemainingPermuted(q, SortQueue(q));
  }

  /** What is waiting when event `i` is run: with the process of each later event, and with its
      score. */
  lemma WaitingThen(q: seq<Job>, i: nat, k: nat, b: Job) returns (w: Job)
    requires AllUnfinished(q) && DistinctPids(q) && i <= k < |AgingSchedule(q)|
    requires b in q && AgingSchedule(q)[k].pid == b.pid
    ensures AllUnfinished(SortQueue(q)) && w in AgingIter(SortQueue(q), i) && w.pid == b.pid
    ensures w.score == Lowered(b.score, Waits(q, AgingSchedule(q)[..i], b.pid))
  {
    hide SortQueue, AgingSchedule, AgingTrace, AgingIter, Waits, Among, Lowered;
    AgingQueue(q);
    var s := SortQueue(q);
    AgingEvent(s, i);
    AgingEvent(s, k);
    AgingIterAdd(s, i, k - i);
    AgingIterPids(s, i);
    w := IterFrom(AgingIter(s, i), k - i, AgingIter(s, k)[0]);
    var j := AgingScores(q, s, i, w);
    SamePid(q, j, b);
  }

  /** AGING runs at each dispatch a process whose score is least. The score is the length of
      the file, lowered by one for each time the process has seen another one run that did
      not finish, but not below 0. */
  lemma AgingRunsLeast(q: seq<Job>, i: nat, k: nat, a: Job, b: Job)
    requires |q| <= MAX_NUM_PROGRAMS && AllUnfinished(q) && DistinctPids(q) && i <= k < |AgingSchedule(q)|
    requires a in q && b in q && AgingSchedule(q)[i].pid == a.pid && AgingSchedule(q)[k].pid == b.pid
    ensures var before := AgingSchedule(q)[..i];
      Lowered(a.score, Waits(q, before, a.pid)) <= Lowered(b.score, Waits(q, before, b.pid))
  {
    hide SortQueue, AgingSchedule, AgingTrace, AgingIter, Waits, Lowered, Sorted, DistinctPids, AllUnfinished, Among;
    var v := WaitingThen(q, i, i, a);
    var w := WaitingThen(q, i, k, b);
    AgingDispatchesSorted(q, i);
    AgingQueue(q);
    AgingEvent(SortQueue(q), i);
    AgingIterPids(SortQueue(q), i);
    var r := AgingIter(SortQueue(q), i);
    SamePid(r, r[0], v);
    HeadIsLeast(r, w);
  }

  lemma HeadIsLeast(q: seq<Job>, j: Job)
    requires Sorted(q) && j in q
    ensures q[0].score <= j.score
  {
  }

  /** Event `k` runs the next line of the head of the queue at that time, a process of least
      score among those still in the queue. */
  lemma AgingDispatchesLeast(q: seq<Job>, k: nat)
    requires |q| <= MAX_NUM_PROGRAMS && AllUnfinished(q) && k < |AgingSchedule(q)|
    ensures AllUnfinished(SortQueue(q)) && AgingIter(SortQueue(q), k) != []
    ensures var w := AgingIter(SortQueue(q), k);
      && Unfinished(w[0]) && AgingSchedule(q)[k] == Current(w[0])
      && forall j :: j in w ==> w[0].score <= j.score
  {
    hide SortQueue, AgingIter;
    AgingDispatchesSorted(q, k);
    AgingEvent(SortQueue(q), k);
  }

  /** The first line is that of a shortest file. */
  lemma AgingStartsShortest(q: seq<Job>) returns (j: Job)
    requires 0 < |q| <= MAX_NUM_PROGRAMS && AllUnfinished(q)
    ensures j in q && Unfinished(j) && AgingSchedule(q) != [] && AgingSchedule(q)[0] == Current(j)
    ensures forall k :: k in q ==> j.score <= k.score
  {
    hide SortQueue;
    SortQueuePermutes(q);
    SortQueueSorts(q);
    j := SortQueue(q)[0];
    assert j in q;
  }
}
